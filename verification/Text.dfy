/** String searching, decimal and hexadecimal text: the standard-library calls the signing and the
    reputation code rest on. */
module Text {
  import opened Basics

  type uint64 = x: int | 0 <= x < UINT64_LIMIT

  const UINT64_LIMIT := 0x1_0000_0000_0000_0000

  // -------------------------------------------------------------- searching

  predicate StandsAt(s: string, i: nat, pat: string) {
    i + |pat| <= |s| && s[i..i + |pat|] == pat
  }

  /** s.rfind(pat): the last occurrence. */
  function RFind(s: string, pat: string): (r: Option<nat>)
    ensures r.Some? ==> StandsAt(s, r.value, pat) && forall j: nat :: StandsAt(s, j, pat) ==> j <= r.value
    ensures r.None? ==> forall j: nat :: !StandsAt(s, j, pat)
  {
    RFindBefore(s, pat, |s| + 1)
  }

  function RFindBefore(s: string, pat: string, n: nat): (r: Option<nat>)
    ensures r.Some? ==> r.value < n && StandsAt(s, r.value, pat)
    ensures r.Some? ==> forall j: nat :: j < n && StandsAt(s, j, pat) ==> j <= r.value
    ensures r.None? ==> forall j: nat :: j < n ==> !StandsAt(s, j, pat)
  {
    if n == 0 then None else if StandsAt(s, n - 1, pat) then Some(n - 1) else RFindBefore(s, pat, n - 1)
  }

  /** s.find_first_of(chars, start), and s.find(c, start) for a single character. */
  function FindFirstOf(s: string, chars: set<char>, start: nat): (r: Option<nat>)
    ensures r.Some? ==> start <= r.value < |s|
    decreases |s| - start
  {
    if start >= |s| then None
    else if s[start] in chars then Some(start)
    else FindFirstOf(s, chars, start + 1)
  }

  /** It is the first position from `start` on that holds one of the characters. */
  lemma {:induction false} FindsFirst(s: string, chars: set<char>, start: nat)
    ensures var r := FindFirstOf(s, chars, start);
            && (r.Some? ==> s[r.value] in chars)
            && forall i :: start <= i < (if r.Some? then r.value else |s|) ==> s[i] !in chars
    decreases |s| - start
  {
    if start < |s| && s[start] !in chars { FindsFirst(s, chars, start + 1); }
  }

  /** A marker that starts with a comma, followed by text without commas, is the last occurrence,
      whatever stands before it. */
  lemma {:induction false} MarkerIsLast(before: string, marker: string, tail: string)
    requires |marker| > 0 && marker[0] == ',' && ',' !in marker[1..] && ',' !in tail
    ensures RFind(before + marker + tail, marker) == Some(|before|)
  {
    var s := before + marker + tail;
    assert StandsAt(s, |before|, marker);
    assert s[|before|..|before| + |marker|] == marker;
    assert forall j :: |before| < j < |s| ==> s[j] == (marker[1..] + tail)[j - |before| - 1];
    forall j: nat | StandsAt(s, j, marker)
      ensures j <= |before|
    {
      assert s[j] == s[j..j + |marker|][0];
    }
  }

  /** Scanning over text free of the characters looked for stops right behind it. */
  lemma {:induction false} FindsEnd(before: string, text: string, tail: string, chars: set<char>)
    requires forall i :: 0 <= i < |text| ==> text[i] !in chars
    requires |tail| > 0 && tail[0] in chars
    ensures FindFirstOf(before + text + tail, chars, |before|) == Some(|before| + |text|)
  {
    hide FindFirstOf;
    var end := |before| + |text|;
    forall j | |before| <= j < end
      ensures (before + text + tail)[j] !in chars
    {
      assert (before + text + tail)[j] == text[j - |before|];
    }
    StopsAt(before + text + tail, chars, |before|, end);
  }

  lemma {:induction false} StopsAt(s: string, chars: set<char>, start: nat, end: nat)
    requires start <= end < |s| && s[end] in chars
    requires forall j :: start <= j < end ==> s[j] !in chars
    ensures FindFirstOf(s, chars, start) == Some(end)
    decreases end - start
  {
    if start < end { StopsAt(s, chars, start + 1, end); }
  }

  // ---------------------------------------------------------------- decimal

  predicate IsDigit(c: char) { '0' <= c <= '9' }

  predicate IsSpace(c: char) {
    c == ' ' || c == '\t' || c == '\n' || c == '\r' || c == 11 as char || c == 12 as char
  }

  /** The six characters isspace knows. */
  lemma SpacesAre(c: char)
    ensures IsSpace(c) <==> c in " \t\n\r" || c as int == 11 || c as int == 12
  {
    assert " \t\n\r"[0] == ' ' && " \t\n\r"[1] == '\t' && " \t\n\r"[2] == '\n' && " \t\n\r"[3] == '\r';
  }

  function DigitValue(c: char): nat
    requires IsDigit(c)
  {
    c as int - '0' as int
  }

  function DigitChar(d: nat): (c: char)
    requires d < 10
    ensures IsDigit(c) && DigitValue(c) == d
  {
    ('0' as int + d) as char
  }

  /** std::to_string */
  function NatToString(n: nat): (s: string)
    ensures |s| > 0 && forall i :: 0 <= i < |s| ==> IsDigit(s[i])
  {
    if n < 10 then [DigitChar(n)] else NatToString(n / 10) + [DigitChar(n % 10)]
  }

  function DigitRun(s: string): (n: nat)
    ensures n <= |s|
    ensures forall i :: 0 <= i < n ==> IsDigit(s[i])
    ensures n < |s| ==> !IsDigit(s[n])
  {
    if |s| == 0 || !IsDigit(s[0]) then 0 else 1 + DigitRun(s[1..])
  }

  function DigitsValue(s: string): nat
    requires forall i :: 0 <= i < |s| ==> IsDigit(s[i])
  {
    if |s| == 0 then 0 else 10 * DigitsValue(s[..|s| - 1]) + DigitValue(s[|s| - 1])
  }

  function SkipSpace(s: string): string {
    if |s| > 0 && IsSpace(s[0]) then SkipSpace(s[1..]) else s
  }

  /** std::stoull: leading space, an optional sign, then as many digits as there are; None for the
      exceptions on no digits or a value beyond 64 bits. A minus sign negates modulo 2^64. */
  function Stoull(s: string): Option<uint64> {
    var t := SkipSpace(s);
    var signed := |t| > 0 && (t[0] == '+' || t[0] == '-');
    var u := if signed then t[1..] else t;
    var n := DigitRun(u);
    if n == 0 then None
    else
      var v: int := DigitsValue(u[..n]);
      if v >= UINT64_LIMIT then None
      else if signed && t[0] == '-' then Some((-v) % UINT64_LIMIT)
      else Some(v)
  }

  lemma {:induction false} NatToStringValue(n: nat)
    ensures DigitsValue(NatToString(n)) == n
  {
    if n >= 10 {
      NatToStringValue(n / 10);
      var s := NatToString(n);
      assert s[..|s| - 1] == NatToString(n / 10);
    }
  }

  lemma {:induction false} DigitRunOf(digits: string, rest: string)
    requires forall i :: 0 <= i < |digits| ==> IsDigit(digits[i])
    requires |rest| > 0 ==> !IsDigit(rest[0])
    ensures DigitRun(digits + rest) == |digits|
  {
    var s := digits + rest;
    assert forall i :: 0 <= i < |digits| ==> s[i] == digits[i];
    assert |rest| > 0 ==> s[|digits|] == rest[0];
  }

  /** Reading back a printed number, whatever non-digit follows it. */
  lemma StoullOfNatToString(n: uint64, rest: string)
    requires |rest| > 0 ==> !IsDigit(rest[0])
    ensures Stoull(NatToString(n) + rest) == Some(n)
  {
    hide DigitsValue, DigitRun, Stoull, NatToString;
    var d := NatToString(n);
    var s := d + rest;
    assert IsDigit(d[0]) && s[0] == d[0];
    StoullUnsigned(s);
    DigitRunOf(d, rest);
    assert s[..|d|] == d;
    NatToStringValue(n);
  }

  /** Decimal notation: each further digit multiplies by ten, and printing writes no leading zero. */
  lemma {:induction false} DecimalNotation(s: string, d: nat, n: nat)
    requires d < 10 && forall i :: 0 <= i < |s| ==> IsDigit(s[i])
    ensures IsDigit("0123456789"[d]) && DigitsValue("") == 0
    ensures DigitsValue(s + ["0123456789"[d]]) == 10 * DigitsValue(s) + d
    ensures NatToString(n)[0] == '0' <==> n == 0
    ensures DigitsValue(NatToString(n)) == n
    decreases n
  {
    var t := s + ["0123456789"[d]];
    assert t[..|t| - 1] == s;
    NatToStringValue(n);
    if n >= 10 { DecimalNotation(s, d, n / 10); }
  }

  lemma StoullOfSpace(c: char, s: string)
    requires IsSpace(c)
    ensures Stoull([c] + s) == Stoull(s)
  {
    assert ([c] + s)[1..] == s;
    assert SkipSpace([c] + s) == SkipSpace(s);
  }

  lemma StoullUnsigned(u: string)
    requires |u| > 0 && IsDigit(u[0])
    ensures Stoull(u) ==
            var n := DigitRun(u);
            if n == 0 || DigitsValue(u[..n]) >= UINT64_LIMIT then None else Some(DigitsValue(u[..n]))
  {
    hide DigitsValue, DigitRun;
    assert SkipSpace(u) == u;
  }

  lemma StoullOfSign(sign: char, u: string)
    requires sign == '+' || sign == '-'
    ensures Stoull([sign] + u) ==
            var n := DigitRun(u);
            if n == 0 || DigitsValue(u[..n]) >= UINT64_LIMIT then None
            else if sign == '+' then Some(DigitsValue(u[..n]))
            else var v: int := DigitsValue(u[..n]); Some((-v) % UINT64_LIMIT)
  {
    hide DigitsValue, DigitRun;
    var s := [sign] + u;
    assert s[0] == sign && s[1..] == u;
    assert SkipSpace(s) == s;
  }

  lemma NegativeModulo(v: int)
    requires 0 < v < UINT64_LIMIT
    ensures (-v) % UINT64_LIMIT == UINT64_LIMIT - v
  {
    assert (-v) % UINT64_LIMIT == (UINT64_LIMIT - v) % UINT64_LIMIT;
  }

  /** White space and a plus sign in front do not matter, a minus sign negates modulo 2^64, and what is
      too large is refused. */
  lemma StoullForms(c: char, digits: string, rest: string)
    requires |digits| > 0 && forall i :: 0 <= i < |digits| ==> IsDigit(digits[i])
    requires IsSpace(c) && (|rest| > 0 ==> !IsDigit(rest[0]))
    ensures var v := DigitsValue(digits);
            && Stoull(digits + rest) == (if v < 0x1_0000_0000_0000_0000 then Some(v) else None)
            && Stoull([c] + (digits + rest)) == Stoull(digits + rest) == Stoull(['+'] + (digits + rest))
            && Stoull(['-'] + (digits + rest)) ==
               if v >= 0x1_0000_0000_0000_0000 then None
               else if v == 0 then Some(0) else Some(0x1_0000_0000_0000_0000 - v)
  {
    hide DigitsValue, DigitRun, Stoull, IsSpace;
    var u := digits + rest;
    StoullOfSpace(c, u);
    assert u[0] == digits[0];
    StoullUnsigned(u);
    StoullOfSign('+', u);
    StoullOfSign('-', u);
    DigitRunOf(digits, rest);
    assert u[..|digits|] == digits;
    if 0 < DigitsValue(digits) < UINT64_LIMIT { NegativeModulo(DigitsValue(digits)); }
  }

  // ------------------------------------------------------------ hexadecimal

  function HexDigit(c: char): Option<nat> {
    if '0' <= c <= '9' then Some(c as int - '0' as int)
    else if 'a' <= c <= 'f' then Some(c as int - 'a' as int + 10)
    else if 'A' <= c <= 'F' then Some(c as int - 'A' as int + 10)
    else None
  }

  function HexChar(d: nat): char
    requires d < 16
  {
    if d < 10 then ('0' as int + d) as char else ('a' as int + d - 10) as char
  }

  /** static_cast<uint8_t>(std::stoul(pair, nullptr, 16)) on two characters; None for its exception. */
  function HexPair(c0: char, c1: char): Option<byte> {
    var d0, d1 := HexDigit(c0), HexDigit(c1);
    if d0.Some? then Some(if d1.Some? then 16 * d0.value + d1.value else d0.value)
    else if d1.None? then None
    else if IsSpace(c0) || c0 == '+' then Some(d1.value)
    else if c0 == '-' then var d: int := d1.value; Some((-d) % 0x100)
    else None
  }

  /** Two lower-case digits per byte. */
  function ToHex(data: seq<byte>): (s: string)
    ensures |s| == 2 * |data|
    ensures forall i :: 0 <= i < |s| ==> s[i] != ',' && s[i] != '"' && s[i] != '}'
  {
    if |data| == 0 then [] else ToHex(data[..|data| - 1]) + HexOfByte(data[|data| - 1])
  }

  function HexOfByte(b: byte): (s: string)
    ensures |s| == 2 && forall i :: 0 <= i < |s| ==> s[i] != ',' && s[i] != '"' && s[i] != '}'
  {
    [HexChar(b / 16), HexChar(b % 16)]
  }

  /** Bytes of the complete character pairs; None when a pair is no number. */
  function FromHex(hex: string): Option<seq<byte>> {
    if |hex| < 2 then Some([])
    else
      var head, rest := HexPair(hex[0], hex[1]), FromHex(hex[2..]);
      if head.None? || rest.None? then None else Some([head.value] + rest.value)
  }

  lemma HexPairRoundTrip(b: byte)
    ensures HexPair(HexOfByte(b)[0], HexOfByte(b)[1]) == Some(b)
  {
    HexDigitRoundTrip(b / 16);
    HexDigitRoundTrip(b % 16);
  }

  lemma HexDigitRoundTrip(d: nat)
    requires d < 16
    ensures HexDigit(HexChar(d)) == Some(d)
  {
  }

  lemma {:induction false} FromHexAppend(a: string, c0: char, c1: char)
    requires |a| % 2 == 0
    ensures FromHex(a + [c0, c1]) ==
              if FromHex(a).None? || HexPair(c0, c1).None? then None
              else Some(FromHex(a).value + [HexPair(c0, c1).value])
  {
    hide HexPair;
    if |a| == 0 {
      assert a + [c0, c1] == [c0, c1];
      assert FromHex([c0, c1][2..]) == Some([]) && FromHex(a) == Some([]);
      if HexPair(c0, c1).Some? {
        var last := [HexPair(c0, c1).value];
        assert last + [] == last == [] + last;
      }
    } else {
      var s, head := a + [c0, c1], HexPair(a[0], a[1]);
      FromHexAppend(a[2..], c0, c1);
      assert s[2..] == a[2..] + [c0, c1] && s[0] == a[0] && s[1] == a[1];
      if head.Some? && FromHex(a[2..]).Some? && HexPair(c0, c1).Some? {
        var rest, last := FromHex(a[2..]).value, HexPair(c0, c1).value;
        assert [head.value] + (rest + [last]) == [head.value] + rest + [last];
      }
    }
  }

  /** Hexadecimal text reads back as the bytes it was made from. */
  lemma {:induction false} HexRoundTrip(data: seq<byte>)
    ensures FromHex(ToHex(data)) == Some(data)
  {
    if |data| > 0 {
      var init, last := data[..|data| - 1], data[|data| - 1];
      HexRoundTrip(init);
      HexPairRoundTrip(last);
      FromHexAppend(ToHex(init), HexOfByte(last)[0], HexOfByte(last)[1]);
      assert HexOfByte(last) == [HexOfByte(last)[0], HexOfByte(last)[1]];
      assert data == init + [last];
    }
  }

  /** Two lower-case digits per byte, the high one first; both cases are read. */
  lemma {:induction false} HexNotation(data: seq<byte>, i: nat, d: nat)
    requires i < |data| && d < 16
    ensures ToHex(data)[2 * i] == "0123456789abcdef"[data[i] / 16]
    ensures ToHex(data)[2 * i + 1] == "0123456789abcdef"[data[i] % 16]
    ensures HexDigit("0123456789abcdef"[d]) == HexDigit("0123456789ABCDEF"[d]) == Some(d)
  {
    HexCharIs(data[i] / 16);
    HexCharIs(data[i] % 16);
    if i < |data| - 1 { HexNotation(data[..|data| - 1], i, d); }
  }

  lemma HexCharIs(d: nat)
    requires d < 16
    ensures HexChar(d) == "0123456789abcdef"[d]
  {
  }

  /** A pair that is not two digits: the second character is dropped when it is no digit, white space or
      a sign in front of a digit is read as stoul does, and anything else throws. */
  lemma HexPairForms(c0: char, c1: char)
    ensures HexDigit(c0).Some? ==>
              HexPair(c0, c1) == Some(if HexDigit(c1).Some? then 16 * HexDigit(c0).value + HexDigit(c1).value
                                      else HexDigit(c0).value)
    ensures HexDigit(c0).None? && (HexDigit(c1).None? || (!IsSpace(c0) && c0 != '+' && c0 != '-')) ==>
              HexPair(c0, c1) == None
    ensures HexDigit(c1).Some? ==>
              && (IsSpace(c0) || c0 == '+' ==> HexPair(c0, c1) == HexDigit(c1))
              && (c0 == '-' ==> HexPair(c0, c1) == Some((256 - HexDigit(c1).value) % 256))
    ensures HexDigit(c0).Some? <==> '0' <= c0 <= '9' || 'a' <= c0 <= 'f' || 'A' <= c0 <= 'F'
  {
    if HexDigit(c1).Some? { NegatedByte(HexDigit(c1).value); }
  }

  lemma NegatedByte(v: int)
    ensures (-v) % 0x100 == (256 - v) % 256
  {
  }

  /** The appending loop of ToHex. */
  method WriteHex(data: seq<byte>) returns (s: string)
    ensures s == ToHex(data)
  {
    s := "";
    for i := 0 to |data|
      invariant s == ToHex(data[..i])
    {
      assert data[..i + 1][..i] == data[..i];
      s := s + HexOfByte(data[i]);
    }
    assert data[..|data|] == data;
  }

  /** The loop of FromHex over complete pairs. */
  method ReadHex(hex: string) returns (r: Option<seq<byte>>)
    ensures r == FromHex(hex)
  {
    hide HexPair;
    var bytes: seq<byte> := [];
    var i := 0;
    while i + 1 < |hex|
      invariant i % 2 == 0 && i <= |hex|
      invariant FromHex(hex[..i]) == Some(bytes)
    {
      FromHexAppend(hex[..i], hex[i], hex[i + 1]);
      assert hex[..i + 2] == hex[..i] + [hex[i], hex[i + 1]];
      var b := HexPair(hex[i], hex[i + 1]);
      if b.None? {
        BadPrefix(hex, i + 2);
        return None;
      }
      bytes := bytes + [b.value];
      i := i + 2;
    }
    DropOddChar(hex, i);
    r := Some(bytes);
  }

  /** A bad pair anywhere spoils the whole text. */
  lemma {:induction false} BadPrefix(hex: string, n: nat)
    requires n <= |hex| && n % 2 == 0 && FromHex(hex[..n]).None?
    ensures FromHex(hex).None?
  {
    hide HexPair;
    if n >= 2 {
      assert hex[..n][2..] == hex[2..][..n - 2];
      if FromHex(hex[..n][2..]).None? { BadPrefix(hex[2..], n - 2); }
    }
  }

  lemma {:induction false} DropOddChar(hex: string, n: nat)
    requires n <= |hex| <= n + 1 && n % 2 == 0
    ensures FromHex(hex) == FromHex(hex[..n])
  {
    hide HexPair;
    if n >= 2 {
      assert hex[..n][2..] == hex[2..][..n - 2];
      DropOddChar(hex[2..], n - 2);
    }
  }
}
