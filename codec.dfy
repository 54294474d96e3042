/** The text side of persistence (skiplist.h): the "key:value" line written by dump_file,
    the validity test and the split that load_file applies to each line, and std::stoi,
    which turns the key text back into an int. */
module Codec {
  import opened Wrappers

  /** The delimiter between key and value (skiplist.h:24). */
  const Delimiter: char := ':'

  /** std::string::find of one character: the first index holding c, or |s| for npos. */
  function FindFirst(s: string, c: char): (r: nat)
    ensures r <= |s|
    ensures r < |s| ==> s[r] == c
    ensures forall j :: 0 <= j < r ==> s[j] != c
  {
    if s == [] then 0
    else if s[0] == c then 0
    else 1 + FindFirst(s[1..], c)
  }

  /** is_valid_string: a line is usable when it is non-empty and holds the delimiter. */
  predicate IsValidString(str: string) {
    str != [] && FindFirst(str, Delimiter) != |str|
  }

  /** is_valid_string accepts exactly the lines that contain the delimiter. */
  lemma ValidIffDelimiter(str: string)
    ensures IsValidString(str) <==> Delimiter in str
  {
    var p := FindFirst(str, Delimiter);
    if Delimiter in str {
      var j :| 0 <= j < |str| && str[j] == Delimiter;
      assert p <= j;
    }
  }

  /** get_key_value_from_string: on an invalid line the two out-strings keep what they
      held; otherwise the key is the text before the first delimiter and the value the
      text after it. */
  function GetKeyValueFromString(str: string, key: string, value: string): (r: (string, string))
    ensures !IsValidString(str) ==> r == (key, value)
    ensures IsValidString(str) ==> r.0 + [Delimiter] + r.1 == str && Delimiter !in r.0
  {
    if !IsValidString(str) then (key, value)
    else
      var p := FindFirst(str, Delimiter);
      assert str == str[..p] + [Delimiter] + str[p + 1..];
      (str[..p], str[p + 1..])
  }

  /** The split is the only one with a delimiter-free key: any line written as
      k + ":" + v with no delimiter in k splits back into k and v. */
  lemma SplitUnique(k: string, v: string, key: string, value: string)
    requires Delimiter !in k
    ensures IsValidString(k + [Delimiter] + v)
    ensures GetKeyValueFromString(k + [Delimiter] + v, key, value) == (k, v)
  {
    var str := k + [Delimiter] + v;
    assert str[|k|] == Delimiter;
    ValidIffDelimiter(str);
    var p := FindFirst(str, Delimiter);
    assert forall j :: 0 <= j < |k| ==> str[j] == k[j];
    assert p == |k|;
    assert str[..p] == k;
    assert str[p + 1..] == v;
  }

  // ---------------------------------------------------------------------------
  // Decimal text of an int, as operator<< writes it.

  predicate IsDigit(c: char) { '0' <= c <= '9' }

  function DigitChar(d: nat): char
    requires d < 10
  {
    "0123456789"[d]
  }

  function DigitValue(c: char): nat
    requires IsDigit(c)
  {
    (c as int - '0' as int) as nat
  }

  /** The decimal digits of n, without leading zeros. */
  function NatToString(n: nat): (s: string)
    ensures s != [] && forall j :: 0 <= j < |s| ==> IsDigit(s[j])
    decreases n
  {
    if n < 10 then [DigitChar(n)] else NatToString(n / 10) + [DigitChar(n % 10)]
  }

  /** The value of a digit string, most significant digit first. */
  function DigitsValue(s: string): nat
    requires forall j :: 0 <= j < |s| ==> IsDigit(s[j])
  {
    if s == [] then 0 else 10 * DigitsValue(s[..|s| - 1]) + DigitValue(s[|s| - 1])
  }

  lemma {:induction false} NatToStringValue(n: nat)
    ensures DigitsValue(NatToString(n)) == n
    decreases n
  {
    var s := NatToString(n);
    if n >= 10 {
      NatToStringValue(n / 10);
      assert s[..|s| - 1] == NatToString(n / 10);
      assert DigitValue(DigitChar(n % 10)) == n % 10;
    } else {
      assert DigitValue(DigitChar(n)) == n;
    }
  }

  /** The text operator<< writes for an int: a minus sign for negatives, then the digits. */
  function IntToString(k: int): string {
    if k < 0 then "-" + NatToString(-k) else NatToString(k)
  }

  /** The text is a minus sign or a digit, then digits: never empty, never a delimiter. */
  lemma IntToStringShape(k: int)
    ensures var s := IntToString(k);
      s != [] && Delimiter !in s && (s[0] == '-' || IsDigit(s[0]))
  {
    var s := IntToString(k);
    var d := NatToString(if k < 0 then -k else k);
    assert forall j :: 0 <= j < |d| ==> d[j] != Delimiter;
    if k < 0 {
      assert forall j :: 1 <= j < |s| ==> s[j] == d[j - 1];
    }
  }

  // ---------------------------------------------------------------------------
  // std::stoi (base 10): skip leading white space, take an optional sign and the longest
  // run of digits after it. No digits is std::invalid_argument, a value outside int is
  // std::out_of_range; both are None here. Characters after the digits are ignored.

  predicate IsSpace(c: char) {
    c == ' ' || c == '\t' || c == '\n' || c == '\U{B}' || c == '\U{C}' || c == '\r'
  }

  /** The index of the first character that is not white space. */
  function SkipSpace(s: string, i: nat): (r: nat)
    requires i <= |s|
    ensures i <= r <= |s|
    ensures forall j :: i <= j < r ==> IsSpace(s[j])
    ensures r < |s| ==> !IsSpace(s[r])
    decreases |s| - i
  {
    if i < |s| && IsSpace(s[i]) then SkipSpace(s, i + 1) else i
  }

  /** The end of the run of digits that starts at i. */
  function DigitRun(s: string, i: nat): (r: nat)
    requires i <= |s|
    ensures i <= r <= |s|
    ensures forall j :: i <= j < r ==> IsDigit(s[j])
    ensures r < |s| ==> !IsDigit(s[r])
    decreases |s| - i
  {
    if i < |s| && IsDigit(s[i]) then DigitRun(s, i + 1) else i
  }

  predicate InInt32(v: int) { -0x8000_0000 <= v < 0x8000_0000 }

  function Stoi(s: string): Option<int32> {
    var a := SkipSpace(s, 0);
    var negative := a < |s| && s[a] == '-';
    var b := if a < |s| && (s[a] == '-' || s[a] == '+') then a + 1 else a;
    StoiDigits(s, b, negative)
  }

  /** The digit run that starts at b, read as a value and given its sign. */
  function StoiDigits(s: string, b: nat, negative: bool): Option<int32>
    requires b <= |s|
  {
    var e := DigitRun(s, b);
    if e == b then None
    else
      var digits := s[b..e];
      assert forall j :: 0 <= j < |digits| ==> digits[j] == s[b + j];
      Signed(DigitsValue(digits), negative)
  }

  /** A magnitude with its sign, or None when the result lies outside int. */
  function Signed(m: nat, negative: bool): Option<int32> {
    var v: int := if negative then -(m as int) else m;
    if InInt32(v) then Some(v as int32) else None
  }

  /** std::stoi reads back what operator<< wrote for every int. */
  lemma StoiIntToString(k: int32)
    ensures Stoi(IntToString(k as int)) == Some(k)
  {
    var n: nat := if k < 0 then -(k as int) else k as int;
    NatToStringValue(n);
    StoiSignDigits(k < 0, NatToString(n));
    if k >= 0 {
      assert "" + NatToString(n) == NatToString(n);
    }
  }

  /** std::stoi on an optional minus sign followed by digits reads their value, negated
      after the sign, when that fits in an int. */
  lemma StoiSignDigits(negative: bool, d: string)
    requires d != [] && forall j :: 0 <= j < |d| ==> IsDigit(d[j])
    ensures Stoi((if negative then "-" else "") + d) == Signed(DigitsValue(d), negative)
  {
    if negative {
      StoiMinusDigits(d);
    } else {
      assert "" + d == d;
      StoiPlainDigits(d);
    }
  }

  lemma StoiMinusDigits(d: string)
    requires d != [] && forall j :: 0 <= j < |d| ==> IsDigit(d[j])
    ensures Stoi("-" + d) == Signed(DigitsValue(d), true)
  {
    var s := "-" + d;
    assert s[1..] == d;
    assert SkipSpace(s, 0) == 0;
    WholeRun(s, 1, true);
  }

  lemma StoiPlainDigits(d: string)
    requires d != [] && forall j :: 0 <= j < |d| ==> IsDigit(d[j])
    ensures Stoi(d) == Signed(DigitsValue(d), false)
  {
    assert SkipSpace(d, 0) == 0;
    WholeRun(d, 0, false);
    assert d[0..] == d;
  }

  /** A run of digits that reaches the end of the text is read whole. */
  lemma WholeRun(s: string, b: nat, negative: bool)
    requires b < |s| && forall j :: b <= j < |s| ==> IsDigit(s[j])
    ensures StoiDigits(s, b, negative) == Signed(DigitsValue(s[b..]), negative)
  {
    DigitsToEnd(s, b);
    assert s[b..|s|] == s[b..];
  }

  /** std::stoi fails on text without a digit (std::invalid_argument). */
  lemma StoiNeedsDigit(s: string)
    ensures Stoi(s).Some? ==> exists j :: 0 <= j < |s| && IsDigit(s[j])
  {
    var a := SkipSpace(s, 0);
    var b := if a < |s| && (s[a] == '-' || s[a] == '+') then a + 1 else a;
    var e := DigitRun(s, b);
    if e != b {
      assert IsDigit(s[b]);
    }
  }

  /** A digit run that reaches the end of the text. */
  lemma DigitsToEnd(s: string, b: nat)
    requires b < |s| && forall j :: b <= j < |s| ==> IsDigit(s[j])
    ensures DigitRun(s, b) == |s|
  {
  }

  /** A line of dump_file: the key, the delimiter, the value (skiplist.h:326). */
  function FormatLine(key: int32, value: string): string {
    IntToString(key as int) + [Delimiter] + value
  }

  /** load_file's reading of a dumped line gives back the key text and the value, whatever
      the value holds, and the key text converts back to the key. */
  lemma LineRoundTrip(key: int32, value: string, kb: string, vb: string)
    ensures IsValidString(FormatLine(key, value))
    ensures var r := GetKeyValueFromString(FormatLine(key, value), kb, vb);
      r.1 == value && r.0 != [] && Stoi(r.0) == Some(key)
  {
    IntToStringShape(key as int);
    SplitUnique(IntToString(key as int), value, kb, vb);
    StoiIntToString(key);
  }
}
