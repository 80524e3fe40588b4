/** The header checks that guard configuration files (lib/mfg.c). */
module CfgFile {
  import opened Gf2
  import opened Crc

  const HEADER_SIZE := 16
  const EBADF := 9
  const ENOMEM := 12
  const ENODEV := 19
  const MRPC_MAX_DATA_LEN := 1024
  const SECURITY_DATA_MAX := 64
  const DEVICE_CONFIG_FILE_VERSION: bv32 := 0
  const DEVICE_CONFIG_FILE_HW_GEN_GEN6: bv8 := 2
  const SSFF: seq<bv8> := [0x53, 0x53, 0x46, 0x46]

  datatype Generation = Gen3 | Gen4 | Gen5 | Gen6 | GenUnknown

  /** Where the C library or the file lets the caller down. */
  datatype Faults = Faults(seek: bool, memory: bool, read: bool, rewind: bool)

  const NO_FAULTS := Faults(false, false, false, false)

  /** A 32-bit word of the header, low byte first. */
  function HeaderWord(file: seq<bv8>, at: nat): bv32
    requires at + 4 <= |file|
  {
    (file[at] as bv32) | ((file[at + 1] as bv32) << 8) |
    ((file[at + 2] as bv32) << 16) | ((file[at + 3] as bv32) << 24)
  }

  /** A file offset stored in a C int. */
  function ToInt32(n: nat): int {
    var low := n % 0x1_0000_0000;
    if low < 0x8000_0000 then low else low - 0x1_0000_0000
  }

  /** The body the checksum is taken over. */
  function Body(file: seq<bv8>, len: nat): seq<bv8>
    requires HEADER_SIZE + len <= |file|
  {
    file[HEADER_SIZE..HEADER_SIZE + len]
  }

  predicate ChecksumMatches(file: seq<bv8>, len: nat)
    requires HEADER_SIZE + len <= |file|
  {
    Crc32Of(Body(file, len), 0, true, true) == HeaderWord(file, 12)
  }

  /** What check_dev_cfg_file_header decides. */
  function DevCfgVerdict(file: seq<bv8>, magic: seq<bv8>, faults: Faults): int {
    if |file| < HEADER_SIZE || file[..4] != magic || HeaderWord(file, 4) != DEVICE_CONFIG_FILE_VERSION then -EBADF
    else if file[8] != DEVICE_CONFIG_FILE_HW_GEN_GEN6 then -ENODEV
    else
      var len := ToInt32(|file|) - HEADER_SIZE;
      if faults.seek || !(0 < len <= MRPC_MAX_DATA_LEN - 4) then -EBADF
      else if faults.memory then -ENOMEM
      else if faults.read || !ChecksumMatches(file, len) || faults.rewind then -EBADF
      else 0
  }

  predicate SecCfgHeaderOk(file: seq<bv8>, gen: Generation) {
    |file| >= HEADER_SIZE && file[..4] == SSFF
    && ((file[8] == 0 && gen == Gen4) || (file[8] == 1 && gen == Gen5))
  }

  /** The body, its length cut to a C int, goes into a buffer of 64 bytes. */
  predicate SecCfgFits(file: seq<bv8>, gen: Generation) {
    SecCfgHeaderOk(file, gen) ==> 0 <= ToInt32(|file| - HEADER_SIZE) <= SECURITY_DATA_MAX
  }

  /** What check_sec_cfg_header decides for a device of generation `gen`. */
  function SecCfgVerdict(file: seq<bv8>, gen: Generation, faults: Faults): int
    requires SecCfgFits(file, gen)
  {
    if |file| < HEADER_SIZE || file[..4] != SSFF || (file[8] != 0 && file[8] != 1) then -EBADF
    else if !SecCfgHeaderOk(file, gen) then -ENODEV
    else if faults.read then -EBADF
    else if ChecksumMatches(file, ToInt32(|file| - HEADER_SIZE)) then 0
    else -EBADF
  }

  method ReadBody(file: seq<bv8>, len: nat) returns (data: array<bv8>)
    requires HEADER_SIZE + len <= |file|
    ensures fresh(data) && data.Length == len && data[..] == Body(file, len)
  {
    data := new bv8[len](i requires 0 <= i < len => file[HEADER_SIZE + i]);
  }

  method CheckDevCfgFileHeader(file: seq<bv8>, expectedMagic: seq<bv8>, faults: Faults) returns (ret: int)
    ensures ret == DevCfgVerdict(file, expectedMagic, faults)
  {
    hide Crc32Of, HeaderWord;
    if |file| < HEADER_SIZE {
      return -EBADF;
    }
    if file[..4] != expectedMagic {
      return -EBADF;
    }
    if HeaderWord(file, 4) != DEVICE_CONFIG_FILE_VERSION {
      return -EBADF;
    }
    if file[8] != DEVICE_CONFIG_FILE_HW_GEN_GEN6 {
      return -ENODEV;
    }
    var dataLen := ToInt32(|file|);
    if dataLen < 0 {
      return -EBADF;
    }
    dataLen := dataLen - HEADER_SIZE;
    if faults.seek {
      return -EBADF;
    }
    if dataLen <= 0 {
      return -EBADF;
    }
    if dataLen > MRPC_MAX_DATA_LEN - 4 {
      return -EBADF;
    }
    if faults.memory {
      return -ENOMEM;
    }
    if faults.read {
      return -EBADF;
    }
    var data := ReadBody(file, dataLen);
    var fileCrc := Crc32(data, dataLen, 0, true, true);
    assert data[..dataLen] == data[..];
    if fileCrc != HeaderWord(file, 12) {
      return -EBADF;
    }
    if faults.rewind {
      return -EBADF;
    }
    return 0;
  }

  /** check_sec_cfg_header; not `inside` when the body does not fit its buffer. */
  method CheckSecCfgHeader(gen: Generation, file: seq<bv8>, faults: Faults) returns (ret: int, inside: bool)
    ensures inside <==> SecCfgFits(file, gen)
    ensures inside ==> ret == SecCfgVerdict(file, gen, faults)
  {
    hide Crc32Of, HeaderWord;
    if |file| < HEADER_SIZE {
      return -EBADF, true;
    }
    if file[..4] != SSFF {
      return -EBADF, true;
    }
    var fileGen;
    if file[8] == 0 {
      fileGen := Gen4;
    } else if file[8] == 1 {
      fileGen := Gen5;
    } else {
      return -EBADF, true;
    }
    if fileGen != gen {
      return -ENODEV, true;
    }
    var dataLen := ToInt32(|file| - HEADER_SIZE);
    if !(0 <= dataLen <= SECURITY_DATA_MAX) {
      return 0, false;
    }
    if faults.read {
      return -EBADF, true;
    }
    var data := ReadBody(file, dataLen);
    var crc := Crc32(data, dataLen, 0, true, true);
    assert data[..dataLen] == data[..];
    if crc != HeaderWord(file, 12) {
      return -EBADF, true;
    }
    return 0, true;
  }

  // ----- which files are accepted, byte by byte

  /** A header, as it lies in a file, and a body. */
  function FileOf(magic: seq<bv8>, version: seq<bv8>, gen: bv8, rsvd: seq<bv8>, crc: seq<bv8>, body: seq<bv8>): (file: seq<bv8>)
    requires |magic| == |version| == |crc| == 4 && |rsvd| == 3
    ensures |file| == 16 + |body|
  {
    magic + version + [gen] + rsvd + crc + body
  }

  /** Four bytes as a number, low byte first; it fits 32 bits. */
  function LowFirst(c: seq<bv8>): bv32
    requires |c| == 4
  {
    (c[0] as bv32) + 0x100 * (c[1] as bv32) + 0x1_0000 * (c[2] as bv32) + 0x100_0000 * (c[3] as bv32)
  }

  lemma WordIsLowFirst(file: seq<bv8>, at: nat)
    requires at + 4 <= |file|
    ensures HeaderWord(file, at) == LowFirst(file[at..at + 4])
  {
    LowFirstBytes(file[at], file[at + 1], file[at + 2], file[at + 3]);
  }

  lemma LowFirstBytes(a: bv8, b: bv8, c: bv8, d: bv8)
    ensures (a as bv32) | ((b as bv32) << 8) | ((c as bv32) << 16) | ((d as bv32) << 24) ==
            (a as bv32) + 0x100 * (b as bv32) + 0x1_0000 * (c as bv32) + 0x100_0000 * (d as bv32)
  {
  }

  /** Where the parts of a file are. */
  lemma FileParts(magic: seq<bv8>, version: seq<bv8>, gen: bv8, rsvd: seq<bv8>, crc: seq<bv8>, body: seq<bv8>)
    requires |magic| == |version| == |crc| == 4 && |rsvd| == 3
    ensures var file := FileOf(magic, version, gen, rsvd, crc, body);
            && file[..4] == magic && file[8] == gen && Body(file, |body|) == body
            && HeaderWord(file, 4) == LowFirst(version) && HeaderWord(file, 12) == LowFirst(crc)
  {
    var file := FileOf(magic, version, gen, rsvd, crc, body);
    FileSlices(magic, version, gen, rsvd, crc, body);
    hide FileOf, HeaderWord, LowFirst;
    WordIsLowFirst(file, 4);
    WordIsLowFirst(file, 12);
  }

  lemma FileSlices(magic: seq<bv8>, version: seq<bv8>, gen: bv8, rsvd: seq<bv8>, crc: seq<bv8>, body: seq<bv8>)
    requires |magic| == |version| == |crc| == 4 && |rsvd| == 3
    ensures var file := FileOf(magic, version, gen, rsvd, crc, body);
            && file[..4] == magic && file[4..8] == version && file[8] == gen && file[12..16] == crc
            && file[16..16 + |body|] == body
  {
  }

  /** A device configuration file of version 0 for generation byte 2 is accepted
      exactly when it has 1 to 1020 bytes of body and their checksum in its header. */
  lemma DevCfgAccepts(magic: seq<bv8>, rsvd: seq<bv8>, crc: seq<bv8>, body: seq<bv8>)
    requires |magic| == |crc| == 4 && |rsvd| == 3 && |body| < 0x7fff_fff0
    ensures DevCfgVerdict(FileOf(magic, [0, 0, 0, 0], 2, rsvd, crc, body), magic, NO_FAULTS) ==
            if 1 <= |body| <= 1020 && LowFirst(crc) == Crc32Of(body, 0, true, true) then 0 else -9
  {
    var file := FileOf(magic, [0, 0, 0, 0], 2, rsvd, crc, body);
    FileParts(magic, [0, 0, 0, 0], 2, rsvd, crc, body);
    assert LowFirst([0, 0, 0, 0]) == 0;
    hide FileOf, HeaderWord, Crc32Of, Body, LowFirst;
  }

  /** Every other header is refused: a short one, another magic or a version other
      than 0 with -9, another generation byte with -19. */
  lemma DevCfgRefuses(file: seq<bv8>, magic: seq<bv8>, faults: Faults)
    ensures |file| < 16 || file[..4] != magic || file[4..8] != [0, 0, 0, 0] ==> DevCfgVerdict(file, magic, faults) == -9
    ensures |file| >= 16 && file[..4] == magic && file[4..8] == [0, 0, 0, 0] && file[8] != 2 ==>
              DevCfgVerdict(file, magic, faults) == -19
  {
    hide ChecksumMatches, HeaderWord, ToInt32;
    if |file| >= 16 {
      WordIsLowFirst(file, 4);
        ZeroBytes(file[4..8]);
    }
  }

  lemma ZeroBytes(c: seq<bv8>)
    requires |c| == 4
    ensures LowFirst(c) == 0 <==> c == [0, 0, 0, 0]
  {
    NoBytes(c[0], c[1], c[2], c[3]);
    if LowFirst(c) == 0 {
      assert c == [0, 0, 0, 0];
    }
  }

  lemma NoBytes(a: bv8, b: bv8, c: bv8, d: bv8)
    ensures (a as bv32) + 0x100 * (b as bv32) + 0x1_0000 * (c as bv32) + 0x100_0000 * (d as bv32) == 0 <==>
            a == 0 && b == 0 && c == 0 && d == 0
  {
  }

  /** A security settings file, "SSFF", with generation byte 0 for Gen4 and 1 for
      Gen5, fits with up to 64 bytes of body and is accepted exactly when it has
      their checksum in its header, whatever its version. */
  lemma SecCfgAccepts(version: seq<bv8>, rsvd: seq<bv8>, crc: seq<bv8>, body: seq<bv8>, gen: Generation)
    requires |version| == |crc| == 4 && |rsvd| == 3 && |body| < 0x8000_0000 && (gen == Gen4 || gen == Gen5)
    ensures var file := FileOf([0x53, 0x53, 0x46, 0x46], version, if gen == Gen4 then 0 else 1, rsvd, crc, body);
            && (SecCfgFits(file, gen) <==> |body| <= 64)
            && (|body| <= 64 ==>
                  SecCfgVerdict(file, gen, NO_FAULTS) ==
                  if LowFirst(crc) == Crc32Of(body, 0, true, true) then 0 else -9)
  {
    var file := FileOf([0x53, 0x53, 0x46, 0x46], version, if gen == Gen4 then 0 else 1, rsvd, crc, body);
    FileParts([0x53, 0x53, 0x46, 0x46], version, if gen == Gen4 then 0 else 1, rsvd, crc, body);
    hide FileOf, HeaderWord, Crc32Of, Body, LowFirst;
  }

  /** Every other header is refused: a short one, another magic or generation byte
      with -9, a file for the other generation with -19. */
  lemma SecCfgRefuses(file: seq<bv8>, gen: Generation, faults: Faults)
    ensures |file| < 16 || file[..4] != [0x53, 0x53, 0x46, 0x46] || file[8] > 1 ==>
              SecCfgFits(file, gen) && SecCfgVerdict(file, gen, faults) == -9
    ensures |file| >= 16 && file[..4] == [0x53, 0x53, 0x46, 0x46] && file[8] <= 1 &&
            gen != (if file[8] == 0 then Gen4 else Gen5) ==>
              SecCfgFits(file, gen) && SecCfgVerdict(file, gen, faults) == -19
  {
    hide ChecksumMatches, HeaderWord, ToInt32;
  }

  // ----- what alterations do

  /** `bad` is `good` with its body altered in at most 32 consecutive bits. */
  ghost predicate BodyBurst(good: seq<bv8>, bad: seq<bv8>, at: nat, len: nat) {
    && |bad| == |good| >= HEADER_SIZE
    && bad != good
    && bad[..HEADER_SIZE] == good[..HEADER_SIZE]
    && len <= 32
    && DifferOnlyWithin(MessageBits(good[HEADER_SIZE..]), MessageBits(bad[HEADER_SIZE..]), at, len)
  }

  /** A burst, seen from the first `n` bits. */
  lemma BurstInPrefix(a: Bits, b: Bits, at: nat, len: nat, n: nat) returns (at': nat, len': nat)
    requires DifferOnlyWithin(a, b, at, len) && n <= |a|
    ensures len' <= len && DifferOnlyWithin(a[..n], b[..n], at', len')
  {
    at' := if at < n then at else n;
    len' := if at + len < n then len else n - at';
    assert forall i :: 0 <= i < at ==> a[i] == a[..at][i] && b[i] == b[..at][i];
    assert forall i :: at + len <= i < |a| ==> a[i] == a[at + len..][i - at - len] && b[i] == b[at + len..][i - at - len];
  }

  /** After a burst the stored checksum matches only if the burst missed the
      bytes the checksum is taken over. */
  lemma BurstBreaksChecksum(good: seq<bv8>, bad: seq<bv8>, at: nat, len: nat, checked: nat)
    requires BodyBurst(good, bad, at, len)
    requires HEADER_SIZE + checked <= |good| && ChecksumMatches(good, checked)
    ensures ChecksumMatches(bad, checked) <==> Body(bad, checked) == Body(good, checked)
  {
    hide Crc32Of, HeaderWord, DifferOnlyWithin;
    var a, b := good[HEADER_SIZE..], bad[HEADER_SIZE..];
    assert Body(good, checked) == a[..checked] && Body(bad, checked) == b[..checked];
    SameHeader(good, bad);
    if a[..checked] != b[..checked] {
      SplitBits(a, checked);
      SplitBits(b, checked);
      var at', len' := BurstInPrefix(MessageBits(a), MessageBits(b), at, len, 8 * checked);
      Crc32DetectsBursts(a[..checked], b[..checked], at', len', 0, true, true);
    }
  }

  lemma SameHeader(good: seq<bv8>, bad: seq<bv8>)
    requires |bad| == |good| >= HEADER_SIZE && bad[..HEADER_SIZE] == good[..HEADER_SIZE]
    ensures forall i :: 0 <= i < HEADER_SIZE ==> good[i] == bad[i]
    ensures good[..4] == bad[..4]
    ensures HeaderWord(good, 4) == HeaderWord(bad, 4) && HeaderWord(good, 12) == HeaderWord(bad, 12)
  {
    hide HeaderWord;
    forall i | 0 <= i < HEADER_SIZE ensures good[i] == bad[i] {
      assert good[i] == good[..HEADER_SIZE][i] && bad[i] == bad[..HEADER_SIZE][i];
    }
    HeaderWordLocal(good, bad, 4);
    HeaderWordLocal(good, bad, 12);
  }

  lemma HeaderWordLocal(a: seq<bv8>, b: seq<bv8>, at: nat)
    requires at + 4 <= |a| && at + 4 <= |b|
    requires a[at] == b[at] && a[at + 1] == b[at + 1] && a[at + 2] == b[at + 2] && a[at + 3] == b[at + 3]
    ensures HeaderWord(a, at) == HeaderWord(b, at)
  {
  }

  /** Altering an accepted device configuration file in a short burst gets it
      rejected, unless the burst misses the checked bytes: the length of the body
      is the file's, cut to a C int, so this needs a file of 4 GiB or more. */
  lemma DevCfgTamperRejected(good: seq<bv8>, bad: seq<bv8>, magic: seq<bv8>, at: nat, len: nat)
    requires DevCfgVerdict(good, magic, NO_FAULTS) == 0 && BodyBurst(good, bad, at, len)
    ensures var checked := ToInt32(|good|) - HEADER_SIZE;
            0 < checked <= |good| - HEADER_SIZE
            && DevCfgVerdict(bad, magic, NO_FAULTS) == if Body(bad, checked) == Body(good, checked) then 0 else -EBADF
    ensures |good| < 0x8000_0000 ==> DevCfgVerdict(bad, magic, NO_FAULTS) == -EBADF
  {
    hide Crc32Of, HeaderWord, ChecksumMatches;
    SameHeader(good, bad);
    var checked := ToInt32(|good|) - HEADER_SIZE;
    BurstBreaksChecksum(good, bad, at, len, checked);
    if |good| < 0x8000_0000 {
      WholeBody(good, bad);
    }
  }

  /** Nothing that goes wrong on the way gets a file accepted. */
  lemma FaultsReject(file: seq<bv8>, magic: seq<bv8>, gen: Generation, faults: Faults)
    ensures DevCfgVerdict(file, magic, faults) == 0 <==>
            DevCfgVerdict(file, magic, NO_FAULTS) == 0 && faults == NO_FAULTS
    ensures SecCfgFits(file, gen) ==>
              (SecCfgVerdict(file, gen, faults) == 0 <==>
               SecCfgVerdict(file, gen, NO_FAULTS) == 0 && !faults.read)
  {
    hide ChecksumMatches, HeaderWord, ToInt32;
  }

  /** Two files with one header and one body are one file. */
  lemma WholeBody(good: seq<bv8>, bad: seq<bv8>)
    requires |bad| == |good| >= HEADER_SIZE && bad[..HEADER_SIZE] == good[..HEADER_SIZE] && bad != good
    ensures Body(bad, |good| - HEADER_SIZE) != Body(good, |good| - HEADER_SIZE)
  {
    var n := |good| - HEADER_SIZE;
    assert good == good[..HEADER_SIZE] + Body(good, n) && bad == bad[..HEADER_SIZE] + Body(bad, n);
  }

  /** Altering an accepted security settings file in a short burst gets it
      rejected, with the same reservation. */
  lemma SecCfgTamperRejected(good: seq<bv8>, bad: seq<bv8>, gen: Generation, at: nat, len: nat)
    requires SecCfgFits(good, gen) && SecCfgVerdict(good, gen, NO_FAULTS) == 0
    requires BodyBurst(good, bad, at, len)
    ensures var checked := ToInt32(|good| - HEADER_SIZE);
            0 <= checked <= |good| - HEADER_SIZE && SecCfgFits(bad, gen)
            && SecCfgVerdict(bad, gen, NO_FAULTS) == if Body(bad, checked) == Body(good, checked) then 0 else -EBADF
    ensures |good| < 0x8000_0000 ==> SecCfgVerdict(bad, gen, NO_FAULTS) == -EBADF
  {
    hide Crc32Of, HeaderWord, ChecksumMatches;
    SameHeader(good, bad);
    var checked := ToInt32(|good| - HEADER_SIZE);
    BurstBreaksChecksum(good, bad, at, len, checked);
    if |good| < 0x8000_0000 {
      WholeBody(good, bad);
    }
  }
}
