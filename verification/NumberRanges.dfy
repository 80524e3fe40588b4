/** Lists of numbers and ranges on the command line: the parser of
    cli/argconfig.c and the port mask printer of cli/main.c. */
module NumberRanges {
  import opened NatBits

  // ----- the C library's strtol, base 0

  predicate IsSpace(c: char) {
    c == ' ' || ('\t' <= c <= '\r')
  }

  function DigitValue(c: char): int {
    if '0' <= c <= '9' then c as int - '0' as int
    else if 'a' <= c <= 'z' then c as int - 'a' as int + 10
    else if 'A' <= c <= 'Z' then c as int - 'A' as int + 10
    else 36
  }

  /** The value of the digits `s` begins with, after `acc`, and what follows them. */
  function Scan(s: string, base: int, acc: int): (int, string)
    decreases |s|
  {
    if s != [] && DigitValue(s[0]) < base then Scan(s[1..], base, acc * base + DigitValue(s[0]))
    else (acc, s)
  }

  function SkipSpace(s: string): string
    decreases |s|
  {
    if s != [] && IsSpace(s[0]) then SkipSpace(s[1..]) else s
  }

  predicate Hex(s: string) {
    |s| >= 3 && s[0] == '0' && (s[1] == 'x' || s[1] == 'X') && DigitValue(s[2]) < 16
  }

  /** Unsigned part: 0x is hexadecimal, a leading 0 octal, otherwise decimal. */
  function StrToUl(s: string): (int, string) {
    if Hex(s) then Scan(s[2..], 16, 0)
    else if s != [] && s[0] == '0' then Scan(s, 8, 0)
    else Scan(s, 10, 0)
  }

  /** The number `s` begins with and the rest; without one, 0 and all of `s`. */
  function StrToL(s: string): (int, string) {
    var t := SkipSpace(s);
    var u := if t != [] && (t[0] == '-' || t[0] == '+') then t[1..] else t;
    if u == [] || DigitValue(u[0]) >= 10 then (0, s)
    else
      var (n, rest) := StrToUl(u);
      (if t[0] == '-' then -n else n, rest)
  }

  // ----- strtok with the delimiters " ,"

  predicate IsDelim(c: char) {
    c == ' ' || c == ','
  }

  function TokenLen(s: string): (n: nat)
    ensures n <= |s|
    ensures forall i :: 0 <= i < n ==> !IsDelim(s[i])
    ensures n < |s| ==> IsDelim(s[n])
  {
    if s == [] || IsDelim(s[0]) then 0 else 1 + TokenLen(s[1..])
  }

  function Tokens(s: string): seq<string>
    decreases |s|
  {
    if s == [] then []
    else if IsDelim(s[0]) then Tokens(s[1..])
    else [s[..TokenLen(s)]] + Tokens(s[TokenLen(s)..])
  }

  // ----- the parser

  function Interval(lo: int, hi: int): (s: seq<int>)
    ensures |s| == if lo <= hi then hi - lo + 1 else 0
    ensures forall i :: 0 <= i < |s| ==> s[i] == lo + i
    decreases hi - lo + 1
  {
    if lo > hi then [] else Interval(lo, hi - 1) + [hi]
  }

  /** The numbers a token stands for, and what is left of it. */
  function TokenNumbers(tok: string): (seq<int>, string) {
    var (start, rest) := StrToL(tok);
    if rest != [] && rest[0] == '-' then
      var (end, rest') := StrToL(rest[1..]);
      (Interval(start, end), rest')
    else ([start], rest)
  }

  /** What comes of a list: its numbers, a rejection, or a write past the array
      that the numbers go to, from where on the source's behaviour is undefined. */
  datatype Outcome = Accepted(nums: seq<int>) | Rejected | Overrun

  function ParseTokens(toks: seq<string>, acc: seq<int>, maxNums: nat): Outcome
    decreases |toks|
  {
    if toks == [] then Accepted(acc)
    else
      var (nums, rest) := TokenNumbers(toks[0]);
      if |acc + nums| > maxNums then Overrun
      else if |acc + nums| == maxNums || rest != [] then Rejected
      else ParseTokens(toks[1..], acc + nums, maxNums)
  }

  function Parse(s: string, maxNums: nat): Outcome {
    ParseTokens(Tokens(s), [], maxNums)
  }

  /** argconfig_parse_comma_range, into an array of as many numbers as the limit says. */
  method ArgconfigParseCommaRange(str: string, res: array<int>) returns (cnt: int, inside: bool)
    modifies res
    ensures match Parse(str, res.Length)
            case Accepted(nums) => inside && cnt == |nums| <= res.Length && res[..cnt] == nums
            case Rejected => inside && cnt == -1
            case Overrun => !inside
  {
    hide StrToL, TokenNumbers, Tokens;
    cnt := 0;
    var left := str;
    while true
      invariant 0 <= cnt <= res.Length
      invariant ParseTokens(Tokens(left), res[..cnt], res.Length) == Parse(str, res.Length)
      decreases |left|
    {
      var tok;
      tok, left := StrTok(left);
      if tok == [] {
        return cnt, true;
      }
      TokenNumbersIs(tok);
      ghost var before := res[..cnt];
      var (start, rest) := StrToL(tok);
      if rest != [] && rest[0] == '-' {
        var (end, rest') := StrToL(rest[1..]);
        rest := rest';
        var first := start;
        while start <= end
          invariant start <= end + 1 || start == first
          invariant 0 <= cnt <= res.Length
          invariant first <= start && res[..cnt] == before + Interval(first, start - 1)
          decreases end - start
        {
          if cnt == res.Length {
            assert |before + Interval(first, end)| > res.Length;
            return cnt, false;
          }
          res[cnt] := start;
          cnt := cnt + 1;
          assert res[..cnt] == res[..cnt - 1] + [start];
          start := start + 1;
        }
        assert first > end ==> Interval(first, first - 1) == Interval(first, end);
      } else {
        if cnt == res.Length {
          assert |before + [start]| > res.Length;
          return cnt, false;
        }
        res[cnt] := start;
        cnt := cnt + 1;
        assert res[..cnt] == before + [start];
      }
      if cnt == res.Length {
        return -1, true;
      }
      if rest != [] {
        return -1, true;
      }
    }
  }

  /** The next token and what follows it; an empty token when there is none. */
  method StrTok(s: string) returns (tok: string, left: string)
    ensures if Tokens(s) == [] then tok == [] else tok == Tokens(s)[0] && tok != [] && Tokens(left) == Tokens(s)[1..]
    ensures |left| + |tok| <= |s|
  {
    var p := s;
    while p != [] && IsDelim(p[0])
      invariant Tokens(p) == Tokens(s) && |p| <= |s|
      decreases |p|
    {
      p := p[1..];
    }
    var n := 0;
    while n < |p| && !IsDelim(p[n])
      invariant 0 <= n <= |p|
      invariant TokenLen(p) == n + TokenLen(p[n..])
    {
      n := n + 1;
    }
    return p[..n], p[n..];
  }

  lemma TokenNumbersIs(tok: string)
    ensures var (start, rest) := StrToL(tok);
            TokenNumbers(tok) ==
            if rest != [] && rest[0] == '-' then (Interval(start, StrToL(rest[1..]).0), StrToL(rest[1..]).1)
            else ([start], rest)
  {
  }

  // ----- well-formed lists

  function Digit(d: nat): (c: char)
    requires d < 10
    ensures DigitValue(c) == d && !IsSpace(c) && !IsDelim(c)
  {
    ('0' as int + d) as char
  }

  function Decimal(n: nat): (s: string)
    ensures s != [] && (n > 0 ==> s[0] != '0')
    ensures forall i :: 0 <= i < |s| ==> DigitValue(s[i]) < 10 && !IsSpace(s[i]) && !IsDelim(s[i])
  {
    if n < 10 then [Digit(n)] else Decimal(n / 10) + [Digit(n % 10)]
  }

  function Number(n: int): (s: string)
    ensures s != [] && forall i :: 0 <= i < |s| ==> !IsDelim(s[i])
  {
    if n < 0 then "-" + Decimal(-n) else Decimal(n)
  }

  lemma {:induction false} ScanDecimal(n: nat, t: string)
    ensures Scan(Decimal(n) + t, 10, 0) == Scan(t, 10, n)
  {
    if n < 10 {
      assert ([Digit(n)] + t)[1..] == t;
    } else {
      var last := [Digit(n % 10)];
      assert Decimal(n) + t == Decimal(n / 10) + (last + t);
      ScanDecimal(n / 10, last + t);
      assert (last + t)[1..] == t;
    }
  }

  lemma DecimalReadsBack(n: nat, t: string)
    requires t == [] || t[0] == '-'
    ensures StrToUl(Decimal(n) + t) == (n, t)
  {
    var s := Decimal(n) + t;
    ScanDecimal(n, t);
    assert Scan(t, 10, n) == (n, t);
    assert s[0] == Decimal(n)[0];
    if n == 0 {
      assert s == [Digit(0)] + t && s[1..] == t;
      assert Scan(t, 8, 0) == (0, t);
    }
  }

  /** strtol reads back any number printed in decimal, up to a dash or the end. */
  lemma NumberReadsBack(n: int, t: string)
    requires t == [] || t[0] == '-'
    ensures StrToL(Number(n) + t) == (n, t)
  {
    hide StrToUl, Decimal;
    var digits := Decimal(if n < 0 then -n else n);
    var s := Number(n) + t;
    var first := digits[0];
    assert DigitValue(first) < 10 && !IsSpace(first);
    DecimalReadsBack(if n < 0 then -n else n, t);
    if n < 0 {
      assert s[0] == '-' && s[1..] == digits + t;
      assert SkipSpace(s) == s;
    } else {
      assert s[0] == first && s == digits + t;
      assert SkipSpace(s) == s;
    }
    assert (digits + t)[0] == first;
  }

  // ----- numbers in other bases

  /** A digit of any base up to sixteen. */
  function AnyDigit(d: nat): (c: char)
    requires d < 16
    ensures DigitValue(c) == d && !IsSpace(c) && !IsDelim(c) && (c == '0' <==> d == 0)
    ensures c != 'x' && c != 'X' && c != '-' && c != '+'
  {
    if d < 10 then ('0' as int + d) as char else ('a' as int + d - 10) as char
  }

  /** Digits, written. */
  function Numeral(ds: seq<nat>): (s: string)
    requires forall i :: 0 <= i < |ds| ==> ds[i] < 16
    ensures |s| == |ds|
  {
    seq(|ds|, i requires 0 <= i < |ds| => AnyDigit(ds[i]))
  }

  /** The number with these digits, most significant first, after `acc`. */
  function Positional(ds: seq<nat>, base: nat, acc: nat): nat {
    if ds == [] then acc else Positional(ds[1..], base, acc * base + ds[0])
  }

  lemma ScanStep(s: string, base: nat, acc: int)
    requires s != [] && DigitValue(s[0]) < base
    ensures Scan(s, base, acc) == Scan(s[1..], base, acc * base + DigitValue(s[0]))
  {
  }

  lemma NumeralHead(ds: seq<nat>, t: string)
    requires ds != [] && forall i :: 0 <= i < |ds| ==> ds[i] < 16
    ensures forall i :: 0 <= i < |ds[1..]| ==> ds[1..][i] < 16
    ensures var s := Numeral(ds) + t; s[0] == AnyDigit(ds[0]) && s[1..] == Numeral(ds[1..]) + t
  {
    hide AnyDigit;
    assert Numeral(ds) == [AnyDigit(ds[0])] + Numeral(ds[1..]);
  }

  lemma {:induction false} ScanNumeral(ds: seq<nat>, base: nat, acc: nat, t: string)
    requires t == [] || t[0] == '-'
    requires base <= 16 && forall i :: 0 <= i < |ds| ==> ds[i] < base
    ensures Scan(Numeral(ds) + t, base, acc) == (Positional(ds, base, acc), t)
    decreases |ds|
  {
    hide *;
    if ds == [] {
      NoDigits(base, acc, t);
    } else {
      NumeralHead(ds, t);
      PositionalStep(ds, base, acc);
      ScanOne(Numeral(ds) + t, ds[0], Numeral(ds[1..]) + t, base, acc);
      ScanNumeral(ds[1..], base, acc * base + ds[0], t);
    }
  }

  lemma NoDigits(base: nat, acc: nat, t: string)
    requires t == [] || t[0] == '-'
    requires base <= 16
    ensures Numeral([]) + t == t && Scan(t, base, acc) == (Positional([], base, acc), t)
  {
  }

  lemma ScanOne(s: string, d: nat, rest: string, base: nat, acc: nat)
    requires s != [] && d < base <= 16 && s[0] == AnyDigit(d) && s[1..] == rest
    ensures Scan(s, base, acc) == Scan(rest, base, acc * base + d)
  {
    hide Scan, AnyDigit;
    ScanStep(s, base, acc);
  }

  lemma PositionalStep(ds: seq<nat>, base: nat, acc: nat)
    requires ds != []
    ensures Positional(ds, base, acc) == Positional(ds[1..], base, acc * base + ds[0])
  {
  }

  lemma HexTaken(s: string)
    requires Hex(s)
    ensures StrToL(s) == Scan(s[2..], 16, 0)
  {
    hide Scan;
    assert SkipSpace(s) == s;
  }

  lemma OctalTaken(s: string)
    requires s != [] && s[0] == '0' && !Hex(s)
    ensures StrToL(s) == Scan(s[1..], 8, 0)
  {
    ScanStep(s, 8, 0);
    hide Scan;
    assert SkipSpace(s) == s;
  }

  /** strtol takes hexadecimal after 0x and octal after 0, with blanks before. */
  lemma OtherBases(ds: seq<nat>, n: nat, t: string, blank: char)
    requires t == [] || t[0] == '-'
    requires blank == ' ' || ('\t' <= blank <= '\r')
    ensures ds != [] && (forall i :: 0 <= i < |ds| ==> ds[i] < 16) ==>
              StrToL("0x" + Numeral(ds) + t) == (Positional(ds, 16, 0), t)
    ensures (forall i :: 0 <= i < |ds| ==> ds[i] < 8) ==> StrToL("0" + Numeral(ds) + t) == (Positional(ds, 8, 0), t)
    ensures StrToL([blank] + Number(n) + t) == (n, t)
  {
    if ds != [] && forall i :: 0 <= i < |ds| ==> ds[i] < 16 {
      HexReadsBack(ds, t);
    }
    if forall i :: 0 <= i < |ds| ==> ds[i] < 8 {
      OctalReadsBack(ds, t);
    }
    BlankSkipped(n, t, blank);
  }

  lemma HexReadsBack(ds: seq<nat>, t: string)
    requires t == [] || t[0] == '-'
    requires ds != [] && forall i :: 0 <= i < |ds| ==> ds[i] < 16
    ensures StrToL("0x" + Numeral(ds) + t) == (Positional(ds, 16, 0), t)
  {
    hide StrToL, Scan, Numeral, AnyDigit, DigitValue, Positional;
    var s, rest := "0x" + Numeral(ds) + t, Numeral(ds) + t;
    NumeralHead(ds, t);
    assert s[0] == '0' && s[1] == 'x' && s[2] == rest[0] && s[2..] == rest;
    HexTaken(s);
    ScanNumeral(ds, 16, 0, t);
  }

  lemma OctalReadsBack(ds: seq<nat>, t: string)
    requires t == [] || t[0] == '-'
    requires forall i :: 0 <= i < |ds| ==> ds[i] < 8
    ensures StrToL("0" + Numeral(ds) + t) == (Positional(ds, 8, 0), t)
  {
    hide StrToL, Scan, Numeral, DigitValue, Positional;
    var s, rest := "0" + Numeral(ds) + t, Numeral(ds) + t;
    assert s[0] == '0' && s[1..] == rest;
    NotHex(ds, t);
    OctalTaken(s);
    ScanNumeral(ds, 8, 0, t);
  }

  lemma NotHex(ds: seq<nat>, t: string)
    requires t == [] || t[0] == '-'
    requires forall i :: 0 <= i < |ds| ==> ds[i] < 8
    ensures !Hex("0" + Numeral(ds) + t)
  {
    var s, rest := "0" + Numeral(ds) + t, Numeral(ds) + t;
    if ds == [] {
      assert Numeral(ds) == [];
      assert |t| > 0 ==> s[1] == t[0];
    } else {
      hide Numeral, DigitValue;
      NumeralHead(ds, t);
      assert s[1] == rest[0];
    }
  }

  lemma BlankSkipped(n: nat, t: string, blank: char)
    requires t == [] || t[0] == '-'
    requires blank == ' ' || ('\t' <= blank <= '\r')
    ensures StrToL([blank] + Number(n) + t) == (n, t)
  {
    NumberReadsBack(n, t);
    var s := [blank] + Number(n) + t;
    var u := Number(n) + t;
    assert s[1..] == u;
    assert SkipSpace(s) == SkipSpace(u);
    var c := u[0];
    assert c == Number(n)[0];
    hide StrToUl, Decimal, Number;
    if c != '-' {
    }
  }

  /** One item of a list: a number, or a range (empty when lo exceeds hi). */
  datatype Item = One(n: int) | Range(lo: int, hi: int)

  function Text(item: Item): (s: string)
    ensures s != [] && forall i :: 0 <= i < |s| ==> !IsDelim(s[i])
  {
    match item
    case One(n) => Number(n)
    case Range(lo, hi) => Number(lo) + "-" + Number(hi)
  }

  function Meaning(item: Item): seq<int> {
    match item
    case One(n) => [n]
    case Range(lo, hi) => Interval(lo, hi)
  }

  function Texts(items: seq<Item>): (s: seq<string>)
    ensures |s| == |items|
  {
    if items == [] then [] else [Text(items[0])] + Texts(items[1..])
  }

  function Numbers(items: seq<Item>): seq<int> {
    if items == [] then [] else Meaning(items[0]) + Numbers(items[1..])
  }

  lemma TokenMeans(item: Item)
    ensures TokenNumbers(Text(item)) == (Meaning(item), "")
  {
    hide StrToL, Number;
    match item
    case One(n) =>
      NumberReadsBack(n, "");
      assert Number(n) + "" == Number(n);
    case Range(lo, hi) =>
      var rest := "-" + Number(hi);
      NumberReadsBack(lo, rest);
      assert Number(lo) + "-" + Number(hi) == Number(lo) + rest;
      NumberReadsBack(hi, "");
      assert rest[1..] == Number(hi) + "";
  }

  /** The running count after some item is exactly `maxNums`. */
  ghost predicate HitsLimit(items: seq<Item>, count: nat, maxNums: nat) {
    exists k :: 0 < k <= |items| && count + |Numbers(items[..k])| == maxNums
  }

  lemma HitsLimitLater(items: seq<Item>, count: nat, maxNums: nat)
    requires items != [] && count + |Meaning(items[0])| != maxNums
    ensures HitsLimit(items, count, maxNums) <==> HitsLimit(items[1..], count + |Meaning(items[0])|, maxNums)
  {
    hide Meaning;
    var nums, rest := Meaning(items[0]), items[1..];
    forall k | 0 < k <= |items|
      ensures |Numbers(items[..k])| == |nums| + |Numbers(rest[..k - 1])|
    {
      assert items[..k][0] == items[0] && items[..k][1..] == rest[..k - 1];
    }
    if HitsLimit(items, count, maxNums) {
      var k :| 0 < k <= |items| && count + |Numbers(items[..k])| == maxNums;
      assert Numbers(rest[..0]) == [];
      assert count + |nums| + |Numbers(rest[..k - 1])| == maxNums;
    }
    if HitsLimit(rest, count + |nums|, maxNums) {
      var k :| 0 < k <= |rest| && count + |nums| + |Numbers(rest[..k])| == maxNums;
      assert |Numbers(items[..k + 1])| == |nums| + |Numbers(rest[..k + 1 - 1])|;
      assert count + |Numbers(items[..k + 1])| == maxNums;
    }
  }

  lemma ParseTokensStep(items: seq<Item>, acc: seq<int>, maxNums: nat)
    requires items != []
    ensures ParseTokens(Texts(items), acc, maxNums) ==
            var acc' := acc + Meaning(items[0]);
            if |acc'| > maxNums then Overrun
            else if |acc'| == maxNums then Rejected
            else ParseTokens(Texts(items[1..]), acc', maxNums)
  {
    hide TokenNumbers, Text, Meaning;
    TokenMeans(items[0]);
    var toks := Texts(items);
    assert toks[0] == Text(items[0]) && toks[1..] == Texts(items[1..]);
  }

  lemma HitsLimitNow(items: seq<Item>, count: nat, maxNums: nat)
    requires items != [] && count + |Meaning(items[0])| == maxNums
    ensures HitsLimit(items, count, maxNums)
  {
    hide Meaning;
    var one := items[..1];
    assert Numbers(one) == Meaning(one[0]) + Numbers(one[1..]);
    assert count + |Numbers(items[..1])| == maxNums;
  }

  /** What the list comes to when `count` numbers are already there. */
  ghost function Fate(items: seq<Item>, acc: seq<int>, maxNums: nat): Outcome {
    if HitsLimit(items, |acc|, maxNums) then Rejected
    else if items != [] && |acc| + |Numbers(items)| > maxNums then Overrun
    else Accepted(acc + Numbers(items))
  }

  lemma FateNow(items: seq<Item>, acc: seq<int>, maxNums: nat)
    requires items != [] && |acc| + |Meaning(items[0])| >= maxNums
    ensures Fate(items, acc, maxNums) == if |acc| + |Meaning(items[0])| == maxNums then Rejected else Overrun
  {
    NumbersStep(items);
    if |acc| + |Meaning(items[0])| == maxNums {
      HitsLimitNow(items, |acc|, maxNums);
    } else {
      hide Meaning;
      forall k | 0 < k <= |items| ensures |acc| + |Numbers(items[..k])| > maxNums {
        NumbersStep(items[..k]);
      }
    }
  }

  lemma FateLater(items: seq<Item>, acc: seq<int>, maxNums: nat)
    requires items != [] && |acc| + |Meaning(items[0])| < maxNums
    ensures Fate(items, acc, maxNums) == Fate(items[1..], acc + Meaning(items[0]), maxNums)
  {
    HitsLimitLater(items, |acc|, maxNums);
    NumbersStep(items);
    var nums, rest := Meaning(items[0]), Numbers(items[1..]);
    assert acc + nums + rest == acc + (nums + rest);
    hide Meaning, HitsLimit;
    if items[1..] == [] {
      assert rest == [];
    }
  }

  lemma {:induction false} ParseTokensMeans(items: seq<Item>, acc: seq<int>, maxNums: nat)
    ensures ParseTokens(Texts(items), acc, maxNums) == Fate(items, acc, maxNums)
  {
    hide *;
    if items == [] {
      ParseTokensEnd(acc, maxNums);
    } else {
      var nums, rest := Meaning(items[0]), items[1..];
      ParseTokensStep(items, acc, maxNums);
      if |acc + nums| >= maxNums {
        FateNow(items, acc, maxNums);
      } else {
        ParseTokensMeans(rest, acc + nums, maxNums);
        FateLater(items, acc, maxNums);
      }
    }
  }

  lemma ParseTokensEnd(acc: seq<int>, maxNums: nat)
    ensures ParseTokens(Texts([]), acc, maxNums) == Fate([], acc, maxNums)
  {
    hide TokenNumbers;
    assert acc + Numbers([]) == acc;
  }

  lemma NumbersStep(items: seq<Item>)
    requires items != []
    ensures Numbers(items) == Meaning(items[0]) + Numbers(items[1..])
  {
  }

  /** Whatever blanks and commas separate the items, a list is rejected exactly
      when a running count is the limit, it is written past the array exactly when
      it has more numbers than that and no running count is the limit, and
      otherwise the result is the concatenation of what the items mean. */
  lemma ParseMeans(s: string, items: seq<Item>, maxNums: nat)
    requires Tokens(s) == Texts(items)
    ensures Parse(s, maxNums) ==
            if HitsLimit(items, 0, maxNums) then Rejected
            else if |Numbers(items)| > maxNums then Overrun
            else Accepted(Numbers(items))
  {
    ParseTokensMeans(items, [], maxNums);
    NumbersOfNone(items);
    hide HitsLimit, ParseTokens, Numbers, Tokens, Texts;
    assert [] + Numbers(items) == Numbers(items);
  }

  lemma NumbersOfNone(items: seq<Item>)
    ensures items == [] ==> Numbers(items) == []
  {
  }

  /** A range that steps over the limit: 65 numbers for 64 places. */
  lemma RangeOverruns()
    ensures Parse("0-64", MASK_NUMS) == Overrun
  {
    var items := [Range(0, 64)];
    OneRange();
    hide *;
    ListTokens(items);
    assert "0-64," [..|"0-64,"| - 1] == "0-64";
    ParseMeans("0-64", items, MASK_NUMS);
  }

  lemma OneRange()
    ensures MASK_NUMS == 64
    ensures var items := [Range(0, 64)];
            Listed(items) == "0-64," && |Numbers(items)| == 65 && !HitsLimit(items, 0, 64)
  {
    var items := [Range(0, 64)];
    SixtyFour();
    assert Text(items[0]) == "0-64";
    hide Text, Decimal, Number;
    assert Listed([]) == "";
    assert items[..|items| - 1] == [];
    assert Listed(items) == Listed([]) + Text(items[0]) + ",";
    NumbersStep(items);
    NumbersOfNone(items[1..]);
    assert |Numbers(items)| == 65;
    forall k | 0 < k <= |items| ensures |Numbers(items[..k])| == 65 {
      assert items[..k] == items;
    }
  }

  lemma SixtyFour()
    ensures Number(0) == "0" && Number(64) == "64"
  {
    assert Decimal(6) == "6";
  }

  lemma {:induction false} NumbersPrefix(items: seq<Item>, k: nat)
    requires k <= |items|
    ensures |Numbers(items[..k])| <= |Numbers(items)|
  {
    if k > 0 {
      assert items[..k][1..] == items[1..][..k - 1];
      NumbersPrefix(items[1..], k - 1);
    }
  }

  /** Items, each followed by a comma. */
  function Listed(items: seq<Item>): string {
    if items == [] then "" else Listed(items[..|items| - 1]) + Text(items[|items| - 1]) + ","
  }

  lemma TokensOfFirst(tok: string, d: char, rest: string)
    requires tok != [] && forall i :: 0 <= i < |tok| ==> !IsDelim(tok[i])
    requires d == ' ' || d == ','
    ensures Tokens(tok + [d] + rest) == [tok] + Tokens(rest)
  {
    var s := tok + [d] + rest;
    var n := TokenLen(s);
    DelimSkipped(d, rest);
    assert forall i :: 0 <= i < |tok| ==> s[i] == tok[i];
    assert s[|tok|] == d;
    assert n == |tok|;
    assert s[..n] == tok;
    assert s[n..] == [d] + rest;
  }

  lemma DelimSkipped(d: char, rest: string)
    requires d == ' ' || d == ','
    ensures Tokens([d] + rest) == Tokens(rest)
  {
    assert ([d] + rest)[1..] == rest;
  }

  lemma TokensOfLast(tok: string)
    requires tok != [] && forall i :: 0 <= i < |tok| ==> !IsDelim(tok[i])
    ensures Tokens(tok) == [tok]
  {
    var n := TokenLen(tok);
    assert n == |tok|;
    assert tok[..n] == tok && tok[n..] == [];
  }

  lemma {:induction false} TextsAppend(items: seq<Item>, more: seq<Item>)
    ensures Texts(items + more) == Texts(items) + Texts(more)
  {
    if items == [] {
      assert items + more == more;
    } else {
      assert (items + more)[1..] == items[1..] + more;
      TextsAppend(items[1..], more);
    }
  }

  lemma {:induction false} ListedTokens(items: seq<Item>, more: string)
    ensures Tokens(Listed(items) + more) == Texts(items) + Tokens(more)
    decreases |items|
  {
    hide Tokens, Text;
    if items == [] {
      assert Listed(items) + more == more;
    } else {
      var most, last := items[..|items| - 1], items[|items| - 1];
      assert items == most + [last];
      var tail := Text(last) + [','] + more;
      assert Listed(items) + more == Listed(most) + tail;
      ListedTokens(most, tail);
      TokensOfFirst(Text(last), ',', more);
      TextsAppend(most, [last]);
      assert Texts([last]) == [Text(last)];
    }
  }

  /** A comma-separated list, without the last comma, is cut into its items. */
  lemma ListTokens(items: seq<Item>)
    requires items != []
    ensures Listed(items) != ""
    ensures Tokens(Listed(items)[..|Listed(items)| - 1]) == Texts(items)
  {
    hide Tokens, Text;
    var most, last := items[..|items| - 1], items[|items| - 1];
    assert items == most + [last];
    assert Listed(items)[..|Listed(items)| - 1] == Listed(most) + Text(last);
    ListedTokens(most, Text(last));
    TokensOfLast(Text(last));
    TextsAppend(most, [last]);
    assert Texts([last]) == [Text(last)];
  }

  // ----- masks

  predicate BitOf(v: nat, i: nat) {
    if i == 0 then v % 2 == 1 else BitOf(v / 2, i - 1)
  }

  /** v | 1 << i */
  function OrBit(v: nat, i: nat): nat {
    if i == 0 then v / 2 * 2 + 1 else OrBit(v / 2, i - 1) * 2 + v % 2
  }

  /** The bits from `lo` to `hi` set. */
  function OrBits(v: nat, lo: nat, hi: nat): nat
    decreases hi + 1 - lo
  {
    if lo > hi then v else OrBits(OrBit(v, lo), lo + 1, hi)
  }

  /** v | 1 << i, as the source has it: the 1 is an int, so in a mask of 64 bits
      bit 31 brings every bit above it along. */
  function OrShifted(v: nat, i: nat, width: nat): nat {
    if i == 31 && width == 64 then OrBits(v, 31, 63) else OrBit(v, i)
  }

  /** How the handler ends: done, at a number out of range, or undefined: an int
      shifted by 32 or more, or numbers written past the array. */
  datatype Status = Done | OutOfRange | Invalid | Undefined

  /** The mask handler's loop: it stops at the first number out of range. */
  function SetBits(v: nat, nums: seq<int>, width: nat): (nat, Status)
    decreases |nums|
  {
    if nums == [] then (v, Done)
    else if !(0 <= nums[0] < width) then (v, OutOfRange)
    else if nums[0] >= 32 then (v, Undefined)
    else SetBits(OrShifted(v, nums[0], width), nums[1..], width)
  }

  const MASK_NUMS: nat := 64

  function MaskOption(s: string, v: nat, width: nat): (nat, Status) {
    match Parse(s, MASK_NUMS)
    case Accepted(nums) => SetBits(v, nums, width)
    case Rejected => (v, Invalid)
    case Overrun => (v, Undefined)
  }

  /** cfg_mask_handler, for each of the mask types. */
  method CfgMaskHandler(optarg: string, value: nat, width: nat) returns (value': nat, status: Status)
    requires width == 8 || width == 16 || width == 32 || width == 64
    ensures (value', status) == MaskOption(optarg, value, width)
    ensures forall j: nat :: BitOf(value, j) ==> BitOf(value', j)
    ensures status == Done <==>
            var list := Parse(optarg, 64);
            list.Accepted? && forall n | n in list.nums :: 0 <= n < width && n < 32
    ensures status == Done ==>
              forall j: nat ::
                BitOf(value', j) <==>
                var nums := Parse(optarg, 64).nums;
                BitOf(value, j) || j in nums || (width == 64 && 31 in nums && 31 <= j <= 63)
  {
    MaskKeeps(optarg, value, width);
    var nums := new int[MASK_NUMS];
    var cnt, inside := ArgconfigParseCommaRange(optarg, nums);
    value' := value;
    if !inside {
      return value', Undefined;
    }
    if cnt < 0 {
      return value', Invalid;
    }
    ghost var all := nums[..cnt];
    for i := 0 to cnt
      invariant nums[..cnt] == all
      invariant SetBits(value', all[i..], width) == SetBits(value, all, width)
    {
      assert all[i..][0] == nums[i] && all[i..][1..] == all[i + 1..];
      if nums[i] < 0 {
        return value', OutOfRange;
      }
      if nums[i] >= width {
        return value', OutOfRange;
      }
      if nums[i] >= 32 {
        return value', Undefined;
      }
      value' := OrShifted(value', nums[i], width);
    }
    return value', Done;
  }

  lemma {:induction false} SetBitsKeeps(v: nat, nums: seq<int>, width: nat, j: nat)
    requires BitOf(v, j)
    ensures BitOf(SetBits(v, nums, width).0, j)
    decreases |nums|
  {
    if nums != [] && 0 <= nums[0] < width && nums[0] < 32 {
      BitOfOrBit(v, nums[0], j);
      BitOfOrBits(v, 31, 63, j);
      SetBitsKeeps(OrShifted(v, nums[0], width), nums[1..], width, j);
    }
  }

  /** What the option does to a mask that already has bits. */
  lemma MaskKeeps(s: string, v: nat, width: nat)
    ensures var (w, status) := MaskOption(s, v, width);
            var list := Parse(s, 64);
            && (forall j: nat :: BitOf(v, j) ==> BitOf(w, j))
            && (status == Done <==> list.Accepted? && forall n | n in list.nums :: 0 <= n < width && n < 32)
            && (status == Done ==>
                  forall j: nat ::
                    BitOf(w, j) <==>
                    BitOf(v, j) || j in list.nums || (width == 64 && 31 in list.nums && 31 <= j <= 63))
  {
    hide Parse, BitOf, SetBits;
    var list := Parse(s, 64);
    if list.Accepted? {
      SetBitsAdds(v, list.nums, width);
      forall j: nat | BitOf(v, j) ensures BitOf(SetBits(v, list.nums, width).0, j) {
        SetBitsKeeps(v, list.nums, width, j);
      }
    }
  }

  /** Bit `i` of a number is its digit for 2^i, and setting it is an or with 2^i. */
  lemma {:induction false} OrBitIsOr(v: nat, i: nat)
    ensures OrBit(v, i) == Or(v, Pow2(i))
    ensures BitOf(v, i) <==> And(v, Pow2(i)) != 0
    decreases i
  {
    if i == 0 {
      OrWithZero(v / 2);
      AndZero(v / 2);
    } else {
      OrBitIsOr(v / 2, i - 1);
    }
  }

  lemma {:induction false} OrWithZero(v: nat)
    ensures Or(v, 0) == v
  {
    if v > 0 {
      OrWithZero(v / 2);
    }
  }

  lemma {:induction false} BitOfOrBits(v: nat, lo: nat, hi: nat, j: nat)
    ensures BitOf(OrBits(v, lo, hi), j) <==> BitOf(v, j) || lo <= j <= hi
    decreases hi + 1 - lo
  {
    if lo <= hi {
      BitOfOrBit(v, lo, j);
      BitOfOrBits(OrBit(v, lo), lo + 1, hi, j);
    }
  }

  /** Bit `j` is named by the list, or brought along by bit 31. */
  predicate Names(nums: seq<int>, width: nat, j: nat) {
    j in nums || (width == 64 && 31 in nums && 31 <= j <= 63)
  }

  lemma {:induction false} BitOfOrBit(v: nat, i: nat, j: nat)
    ensures BitOf(OrBit(v, i), j) <==> BitOf(v, j) || i == j
  {
    if i > 0 && j > 0 {
      BitOfOrBit(v / 2, i - 1, j - 1);
    }
  }

  /** The handler accepts exactly the lists of numbers that are in range and can
      be shifted to, and then the mask holds the bits it had and those named. */
  lemma {:induction false} SetBitsAdds(v: nat, nums: seq<int>, width: nat)
    ensures SetBits(v, nums, width).1 == Done <==> forall n | n in nums :: 0 <= n < width && n < 32
    ensures SetBits(v, nums, width).1 == Done ==>
              forall j: nat :: BitOf(SetBits(v, nums, width).0, j) <==> BitOf(v, j) || Names(nums, width, j)
    decreases |nums|
  {
    if nums != [] && 0 <= nums[0] < width && nums[0] < 32 {
      var w := OrShifted(v, nums[0], width);
      SetBitsAdds(w, nums[1..], width);
      forall n ensures n in nums <==> n == nums[0] || n in nums[1..] {
        assert nums == [nums[0]] + nums[1..];
      }
      forall j: nat
        ensures BitOf(w, j) <==> BitOf(v, j) || j == nums[0] || (nums[0] == 31 && width == 64 && 31 <= j <= 63)
      {
        BitOfOrBit(v, nums[0], j);
        BitOfOrBits(v, 31, 63, j);
      }
    } else if nums != [] {
      assert nums[0] in nums;
    }
  }

  lemma {:induction false} SameBits(a: nat, b: nat)
    requires forall j: nat :: BitOf(a, j) <==> BitOf(b, j)
    ensures a == b
    decreases a + b
  {
    assert BitOf(a, 0) <==> BitOf(b, 0);
    if a > 0 || b > 0 {
      forall j: nat ensures BitOf(a / 2, j) <==> BitOf(b / 2, j) {
        assert BitOf(a, j + 1) <==> BitOf(b, j + 1);
      }
      SameBits(a / 2, b / 2);
    }
  }

  // ----- the printer

  /** The bits of `m`, counted from `i`, in ascending order. */
  function BitsFrom(m: nat, i: nat): seq<int> {
    if m == 0 then [] else (if m % 2 == 1 then [i] else []) + BitsFrom(m / 2, i + 1)
  }

  function Run(lo: int, hi: int): Item {
    if lo == hi then One(lo) else Range(lo, hi)
  }

  /** The runs of ones in `m`, whose lowest bit is bit `i`; a run that began at
      bit `open` is still going on, unless `open` is negative. */
  function RunsFrom(m: nat, i: nat, open: int): seq<Item>
    decreases m
  {
    var closed := if open >= 0 then [Run(open, i - 1)] else [];
    if m == 0 then closed
    else if m % 2 == 1 then RunsFrom(m / 2, i + 1, if open < 0 then i else open)
    else closed + RunsFrom(m / 2, i + 1, -1)
  }

  lemma RunsFromIs(m: nat, i: nat, open: int)
    ensures var closed := if open >= 0 then [Run(open, i - 1)] else [];
            RunsFrom(m, i, open) ==
            if m == 0 then closed
            else if m % 2 == 1 then RunsFrom(m / 2, i + 1, if open < 0 then i else open)
            else closed + RunsFrom(m / 2, i + 1, -1)
  {
  }

  function MaskText(m: nat): string
    requires m > 0
  {
    RunsExist(m, 0, -1);
    var s := Listed(RunsFrom(m, 0, -1));
    s[..|s| - 1]
  }

  lemma {:induction false} RunsExist(m: nat, i: nat, open: int)
    requires m > 0 || open >= 0
    ensures RunsFrom(m, i, open) != [] && Listed(RunsFrom(m, i, open)) != ""
    decreases m
  {
    if m > 0 && (m % 2 == 1 || open < 0) {
      RunsExist(m / 2, i + 1, if m % 2 == 1 then if open < 0 then i else open else -1);
    }
  }

  lemma ListedAppend(items: seq<Item>, item: Item)
    ensures Listed(items + [item]) == Listed(items) + Text(item) + ","
  {
    assert (items + [item])[..|items|] == items;
  }

  /** What the buffer holds once the runs `done` are complete and one is open. */
  ghost function Shown(done: seq<Item>, open: int): string {
    if open >= 0 then Listed(done) + (Number(open) + ",") else Listed(done)
  }

  ghost function AllRuns(done: seq<Item>, m: nat, i: nat, open: int): seq<Item> {
    done + RunsFrom(m, i, open)
  }

  /** For the empty mask there is no comma to take back: the source would write
      before its buffer. */
  method PortMaskToString(portMask: nat) returns (buf: string, inside: bool)
    ensures inside <==> portMask % 256 != 0
    ensures inside ==> buf == if portMask % 256 == 255 then "ALL" else MaskText(portMask % 256)
  {
    hide *;
    var m: nat, i, range := portMask % 256, 0, -1;
    if m == 255 {
      return "ALL", true;
    }
    ghost var mask := m;
    ghost var done: seq<Item> := [];
    buf := "";
    NothingShown(m);
    while m != 0
      invariant i >= 0 && -1 <= range < i
      invariant buf == Shown(done, range)
      invariant AllRuns(done, m, i, range) == RunsFrom(mask, 0, -1)
    {
      RunsStep(done, m, i, range);
      if m % 2 == 1 && range < 0 {
        Opens(done, i);
        buf := buf + Number(i) + ",";
        range := i;
      } else if m % 2 == 0 {
        if range >= 0 {
          Closes(done, range, i - 1);
          done := done + [Run(range, i - 1)];
        }
        if range >= 0 && range < i - 1 {
          buf := buf[..|buf| - 1];
          buf := buf + "-" + Number(i - 1) + ",";
        }
        range := -1;
      }
      m := m / 2;
      i := i + 1;
    }
    RunsEnd(done, i, range);
    if range >= 0 {
      Closes(done, range, i - 1);
      done := done + [Run(range, i - 1)];
    }
    if range >= 0 && range < i - 1 {
      buf := buf[..|buf| - 1];
      buf := buf + "-" + Number(i - 1) + ",";
    }
    MaskTextIs(mask);
    if buf == "" {
      return buf, false;
    }
    return buf[..|buf| - 1], true;
  }

  lemma NothingShown(m: nat)
    ensures Shown([], -1) == "" && AllRuns([], m, 0, -1) == RunsFrom(m, 0, -1)
  {
  }

  lemma MaskTextIs(m: nat)
    ensures var s := Shown(RunsFrom(m, 0, -1), -1);
            (s == "" <==> m == 0) && (m > 0 ==> MaskText(m) == s[..|s| - 1])
  {
    if m > 0 {
      RunsExist(m, 0, -1);
    }
  }

  lemma RunsStep(done: seq<Item>, m: nat, i: nat, open: int)
    requires m > 0
    ensures AllRuns(done, m, i, open) ==
            if m % 2 == 1 then AllRuns(done, m / 2, i + 1, if open < 0 then i else open)
            else AllRuns(if open >= 0 then done + [Run(open, i - 1)] else done, m / 2, i + 1, -1)
  {
    hide Run;
    var rest := RunsFrom(m / 2, i + 1, -1);
    var closed := if open >= 0 then [Run(open, i - 1)] else [];
    assert done + (closed + rest) == done + closed + rest;
    assert done + [] == done;
  }

  lemma RunsEnd(done: seq<Item>, i: nat, open: int)
    ensures AllRuns(done, 0, i, open) == if open >= 0 then done + [Run(open, i - 1)] else done
  {
    assert done + [] == done;
  }

  lemma Opens(done: seq<Item>, lo: nat)
    ensures Shown(done, -1) + Number(lo) + "," == Shown(done, lo)
  {
    hide Number, Listed;
    assert Listed(done) + Number(lo) + "," == Listed(done) + (Number(lo) + ",");
  }

  /** Closing a run takes the comma back only when the run is longer than one. */
  lemma Closes(done: seq<Item>, lo: nat, hi: int)
    requires lo <= hi
    ensures Shown(done, lo) != ""
    ensures var buf := Shown(done, lo);
            Shown(done + [Run(lo, hi)], -1) == if lo < hi then buf[..|buf| - 1] + "-" + Number(hi) + "," else buf
  {
    hide Number, Listed;
    ListedAppend(done, Run(lo, hi));
    var before, first := Listed(done), Number(lo);
    assert (before + (first + ","))[..|before + (first + ",")| - 1] == before + first;
    if lo < hi {
      var second := Number(hi);
      assert Text(Run(lo, hi)) == first + "-" + second;
      assert before + (first + "-" + second) + "," == before + first + "-" + second + ",";
    } else {
      assert Text(Run(lo, hi)) == first;
      assert before + first + "," == before + (first + ",");
    }
  }

  lemma {:induction false} NumbersAppend(items: seq<Item>, more: seq<Item>)
    ensures Numbers(items + more) == Numbers(items) + Numbers(more)
  {
    if items == [] {
      assert items + more == more;
    } else {
      assert (items + more)[1..] == items[1..] + more;
      NumbersAppend(items[1..], more);
    }
  }

  /** The runs printed are exactly the bits of the mask, in ascending order. */
  lemma {:induction false} RunsAreBits(m: nat, i: nat, open: int)
    requires open < i
    ensures Numbers(RunsFrom(m, i, open)) ==
            (if open >= 0 then Interval(open, i - 1) else []) + BitsFrom(m, i)
    decreases m
  {
    hide Interval, Run, RunsFrom, BitsFrom, Numbers;
    RunsFromIs(m, i, open);
    BitsStep(m, i);
    var before := if open >= 0 then Interval(open, i - 1) else [];
    var closed := if open >= 0 then [Run(open, i - 1)] else [];
    var rest := BitsFrom(m / 2, i + 1);
    ClosedMeans(open, i - 1);
    NoNumbers();
    if m == 0 {
      assert before + [] == before;
    } else if m % 2 == 1 {
      RunsAreBits(m / 2, i + 1, if open < 0 then i else open);
      IntervalGrows(if open < 0 then i else open, i);
      assert before + [i] + rest == before + ([i] + rest);
    } else {
      RunsAreBits(m / 2, i + 1, -1);
      NumbersAppend(closed, RunsFrom(m / 2, i + 1, -1));
      assert [] + rest == rest;
    }
  }

  lemma NoNumbers()
    ensures Numbers([]) == []
  {
  }

  lemma BitsStep(m: nat, i: nat)
    ensures m == 0 ==> BitsFrom(m, i) == []
    ensures m > 0 && m % 2 == 1 ==> BitsFrom(m, i) == [i] + BitsFrom(m / 2, i + 1)
    ensures m > 0 && m % 2 == 0 ==> BitsFrom(m, i) == BitsFrom(m / 2, i + 1)
  {
    assert [] + BitsFrom(m / 2, i + 1) == BitsFrom(m / 2, i + 1);
  }

  lemma IntervalGrows(lo: int, hi: int)
    requires lo <= hi
    ensures Interval(lo, hi) == Interval(lo, hi - 1) + [hi]
    ensures Interval(hi, hi - 1) == []
  {
  }

  lemma ClosedMeans(lo: int, hi: int)
    requires lo <= hi + 1
    ensures lo <= hi ==> Numbers([Run(lo, hi)]) == Interval(lo, hi)
  {
    if lo <= hi {
      var closed := [Run(lo, hi)];
      assert Numbers(closed) == Meaning(closed[0]) + Numbers(closed[1..]) == Meaning(closed[0]);
      if lo == hi {
        IntervalGrows(lo, hi);
      }
    }
  }

  function First(item: Item): int {
    match item case One(n) => n case Range(lo, _) => lo
  }

  function Last(item: Item): int {
    match item case One(n) => n case Range(_, hi) => hi
  }

  /** Runs from `least` on, between any two of which a bit is missing; only a run of
      more than one bit is a range. */
  ghost predicate Maximal(items: seq<Item>, least: int) {
    && (forall k :: 0 <= k < |items| ==> least <= First(items[k]) && (items[k].Range? ==> items[k].lo < items[k].hi))
    && (forall j, k :: 0 <= j < k < |items| ==> Last(items[j]) + 1 < First(items[k]))
  }

  lemma MaximalCons(item: Item, rest: seq<Item>, least: int)
    requires least <= First(item) <= Last(item) && (item.Range? ==> item.lo < item.hi)
    requires Maximal(rest, Last(item) + 2)
    ensures Maximal([item] + rest, least)
  {
    var items := [item] + rest;
    assert forall k :: 0 < k < |items| ==> items[k] == rest[k - 1];
  }

  lemma {:induction false} RunsAreMaximal(m: nat, i: nat, open: int)
    requires open < i
    ensures Maximal(RunsFrom(m, i, open), if open >= 0 then open else i)
    decreases m
  {
    RunsFromIs(m, i, open);
    hide RunsFrom, Maximal;
    var closed := if open >= 0 then [Run(open, i - 1)] else [];
    if m == 0 {
      NoRuns(i + 1);
      NoRuns(i);
      if open >= 0 {
        MaximalCons(Run(open, i - 1), [], open);
        assert [Run(open, i - 1)] + [] == closed;
      }
    } else if m % 2 == 1 {
      RunsAreMaximal(m / 2, i + 1, if open < 0 then i else open);
    } else {
      RunsAreMaximal(m / 2, i + 1, -1);
      var rest := RunsFrom(m / 2, i + 1, -1);
      if open >= 0 {
        MaximalCons(Run(open, i - 1), rest, open);
      } else {
        assert closed + rest == rest;
        MaximalFrom(rest, i);
      }
    }
  }

  lemma NoRuns(least: int)
    ensures Maximal([], least)
  {
  }

  lemma MaximalFrom(items: seq<Item>, least: int)
    requires Maximal(items, least + 1)
    ensures Maximal(items, least)
  {
  }

  lemma {:induction false} BitsAreBits(m: nat, i: nat, j: int)
    ensures j in BitsFrom(m, i) <==> j >= i && BitOf(m, j - i)
    decreases m
  {
    if m > 0 {
      BitsAreBits(m / 2, i + 1, j);
    } else if j >= i {
      ZeroHasNoBits(j - i);
    }
  }

  lemma {:induction false} ZeroHasNoBits(i: nat)
    ensures !BitOf(0, i)
  {
    if i > 0 {
      ZeroHasNoBits(i - 1);
    }
  }

  /** A printed mask parses to its bits, as long as they number fewer than the limit. */
  lemma MaskTextParses(m: nat)
    requires m > 0 && |BitsFrom(m, 0)| < MASK_NUMS
    ensures Parse(MaskText(m), MASK_NUMS) == Accepted(BitsFrom(m, 0))
  {
    hide RunsFrom, BitsFrom, Numbers, Listed, Texts, Tokens, Parse;
    var items := RunsFrom(m, 0, -1);
    RunsExist(m, 0, -1);
    ListTokens(items);
    RunsAreBits(m, 0, -1);
    var bits := BitsFrom(m, 0);
    assert [] + bits == bits;
    ParseMeans(MaskText(m), items, MASK_NUMS);
    forall k | 0 < k <= |items| ensures |Numbers(items[..k])| < MASK_NUMS {
      NumbersPrefix(items, k);
    }
  }

  /** Any printed mask that fits a mask option, read with a value of zero, gives
      back the mask, exactly when a mask of 64 bits keeps clear of bit 31 and up. */
  lemma MaskReadsBack(m: nat, width: nat)
    requires m > 0 && |BitsFrom(m, 0)| < MASK_NUMS && (width <= 32 || width == 64)
    requires forall j: nat :: BitOf(m, j) ==> j < width
    ensures MaskOption(MaskText(m), 0, width) == (m, Done) <==>
            (width == 64 ==> forall j: nat :: BitOf(m, j) ==> j < 31)
  {
    MaskTextParses(m);
    var bits := BitsFrom(m, 0);
    forall j: int ensures j in bits <==> j >= 0 && BitOf(m, j) {
      BitsAreBits(m, 0, j);
    }
    hide MaskText, BitsFrom, BitOf, Parse, SetBits;
    if j: nat :| width == 64 && BitOf(m, j) && j >= 31 {
      HighBitsLost(m, bits, j);
    } else {
      BitsComeBack(m, bits, width);
    }
  }

  lemma BitsComeBack(m: nat, bits: seq<int>, width: nat)
    requires forall j: int :: j in bits <==> j >= 0 && BitOf(m, j)
    requires forall j: nat :: BitOf(m, j) ==> j < width && j < 32 && (width == 64 ==> j < 31)
    ensures SetBits(0, bits, width) == (m, Done)
  {
    SetBitsAdds(0, bits, width);
    hide BitOf, SetBits;
    var (v, status) := SetBits(0, bits, width);
    forall j: nat ensures BitOf(v, j) <==> BitOf(m, j) {
      ZeroHasNoBits(j);
    }
    SameBits(v, m);
  }

  lemma HighBitsLost(m: nat, bits: seq<int>, j: nat)
    requires forall i: int :: i in bits <==> i >= 0 && BitOf(m, i)
    requires j in bits && j >= 31
    ensures SetBits(0, bits, 64) != (m, Done)
  {
    SetBitsAdds(0, bits, 64);
    hide BitOf, SetBits;
    var (v, status) := SetBits(0, bits, 64);
    if status == Done {
      assert j < 32;
      assert Names(bits, 64, 63);
      assert 63 !in bits;
    }
  }

  lemma {:induction false} NarrowBits(m: nat, i: nat, width: nat)
    requires width <= 8 && m < [1, 2, 4, 8, 16, 32, 64, 128, 256][width]
    ensures |BitsFrom(m, i)| <= width
    ensures forall j: nat :: BitOf(m, j) ==> j < width
    decreases width
  {
    if width > 0 {
      NarrowBits(m / 2, i + 1, width - 1);
      assert forall j: nat :: j > 0 && BitOf(m, j) ==> BitOf(m / 2, j - 1);
    } else {
      forall j: nat ensures !BitOf(m, j) {
        ZeroHasNoBits(j);
      }
    }
  }

  lemma AllIsNotANumber()
    ensures Parse("ALL", MASK_NUMS) == Rejected
  {
    var s := "ALL";
    TokensOfLast(s);
    assert SkipSpace(s) == s;
    assert TokenNumbers(s) == ([0], s);
  }

  /** A port mask survives printing and reading back exactly when it is not the
      full mask: that one prints as ALL, which the parser refuses. */
  lemma PortMaskRoundTrip(portMask: nat)
    requires 0 < portMask < 256
    ensures MaskOption(if portMask == 255 then "ALL" else MaskText(portMask), 0, 8) == (portMask, Done)
            <==> portMask != 255
  {
    if portMask == 255 {
      AllIsNotANumber();
    } else {
      NarrowBits(portMask, 0, 8);
      MaskReadsBack(portMask, 8);
    }
  }
}
