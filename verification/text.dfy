/** The `java.lang.String` operations the CSV import relies on, on strings
    as sequences of UTF-16 code units. */
module Text {

  /** `String.trim` removes every code unit up to U+0020 from both ends. */
  predicate IsTrimmed(c: char) {
    c <= ' '
  }

  /** Every code unit of s in [lo, hi) is one `trim` removes. */
  predicate AllTrimmed(s: string, lo: int, hi: int)
    requires 0 <= lo <= hi <= |s|
  {
    forall i | lo <= i < hi :: IsTrimmed(s[i])
  }

  function TrimStart(s: string): (r: string)
    ensures |r| <= |s| && r == s[|s| - |r|..]
    ensures |r| > 0 ==> !IsTrimmed(r[0])
    ensures AllTrimmed(s, 0, |s| - |r|)
  {
    if |s| > 0 && IsTrimmed(s[0]) then TrimStart(s[1..]) else s
  }

  function TrimEnd(s: string): (r: string)
    ensures |r| <= |s| && r == s[..|r|]
    ensures |r| > 0 ==> !IsTrimmed(r[|r| - 1])
    ensures AllTrimmed(s, |r|, |s|)
  {
    if |s| > 0 && IsTrimmed(s[|s| - 1]) then TrimEnd(s[..|s| - 1]) else s
  }

  /** `String.trim()`: the longest slice that neither starts nor ends with a
      code unit up to U+0020. */
  function Trim(s: string): (r: string)
    ensures |r| > 0 ==> !IsTrimmed(r[0]) && !IsTrimmed(r[|r| - 1])
    ensures var k := Leading(s);
      && k + |r| <= |s| && r == s[k..k + |r|]
      && AllTrimmed(s, 0, k) && AllTrimmed(s, k + |r|, |s|)
  {
    var t := TrimStart(s);
    var r := TrimEnd(t);
    SliceOfSuffix(s, t, r);
    TrimmedTail(s, t, |r|);
    r
  }

  /** A prefix of a suffix is a slice of the whole. */
  lemma SliceOfSuffix(s: string, t: string, r: string)
    requires |t| <= |s| && t == s[|s| - |t|..]
    requires |r| <= |t| && r == t[..|r|]
    ensures r == s[|s| - |t|..|s| - |t| + |r|]
    ensures |r| > 0 ==> r[0] == t[0]
  {
  }

  /** What is trimmed off the end of a suffix is trimmed off the end of the whole. */
  lemma TrimmedTail(s: string, t: string, n: nat)
    requires |t| <= |s| && t == s[|s| - |t|..] && n <= |t|
    requires AllTrimmed(t, n, |t|)
    ensures AllTrimmed(s, |s| - |t| + n, |s|)
  {
    var k := |s| - |t|;
    forall i | k + n <= i < |s|
      ensures IsTrimmed(s[i])
    {
      assert s[i] == t[i - k];
    }
  }

  /** How many code units `trim` removes from the front. */
  function Leading(s: string): nat {
    |s| - |TrimStart(s)|
  }

  /** A trimmed string trims to itself. */
  lemma TrimIdempotent(s: string)
    ensures Trim(Trim(s)) == Trim(s)
  {
    var r := Trim(s);
    if |r| > 0 {
      assert TrimStart(r) == r;
      assert TrimEnd(r) == r;
    }
  }

  /** `s.trim().isEmpty()`. */
  predicate IsBlank(s: string) {
    |Trim(s)| == 0
  }

  /** A line is blank exactly when all of it would be trimmed away. */
  lemma BlankIffAllTrimmed(s: string)
    ensures IsBlank(s) <==> forall i | 0 <= i < |s| :: IsTrimmed(s[i])
  {
    var r := Trim(s);
    if |r| > 0 {
      assert r[0] == s[Leading(s)];
    }
  }

  /** `Character.toLowerCase` on the ASCII letters; other code units unchanged. */
  function LowerChar(c: char): char {
    if 'A' <= c <= 'Z' then (c as int - 'A' as int + 'a' as int) as char else c
  }

  function ToLower(s: string): (r: string)
    ensures |r| == |s| && forall i | 0 <= i < |s| :: r[i] == LowerChar(s[i])
  {
    seq(|s|, i requires 0 <= i < |s| => LowerChar(s[i]))
  }

  /** `s.contains(sub)`. */
  predicate Contains(s: string, sub: string) {
    exists i | 0 <= i <= |s| - |sub| :: OccursAt(s, sub, i)
  }

  predicate OccursAt(s: string, sub: string, i: int) {
    0 <= i && i + |sub| <= |s| && s[i..i + |sub|] == sub
  }

  /** The code units `split("[,;\\t]")` splits on. */
  predicate IsSeparator(c: char) {
    c == ',' || c == ';' || c == '\t'
  }

  function CountSeparators(s: string): nat {
    if |s| == 0 then 0 else (if IsSeparator(s[0]) then 1 else 0) + CountSeparators(s[1..])
  }

  /** Every field between separators, empty ones included. */
  function Fields(s: string): (r: seq<string>)
    ensures |r| == CountSeparators(s) + 1
    ensures forall k, i | 0 <= k < |r| && 0 <= i < |r[k]| :: !IsSeparator(r[k][i])
  {
    if |s| == 0 then [""]
    else if IsSeparator(s[0]) then [""] + Fields(s[1..])
    else
      var rest := Fields(s[1..]);
      [[s[0]] + rest[0]] + rest[1..]
  }

  predicate NoSeparator(s: string) {
    forall i | 0 <= i < |s| :: !IsSeparator(s[i])
  }

  /** Text without a separator is a single field. */
  lemma {:induction false} FieldsWithoutSeparator(a: string)
    requires NoSeparator(a)
    ensures Fields(a) == [a] && CountSeparators(a) == 0
  {
    if |a| > 0 {
      FieldsWithoutSeparator(a[1..]);
      assert a == [a[0]] + a[1..];
    }
  }

  /** A separator ends the field in front of it. */
  lemma {:induction false} FieldsAfterField(a: string, c: char, rest: string)
    requires NoSeparator(a) && IsSeparator(c)
    ensures Fields(a + [c] + rest) == [a] + Fields(rest)
    ensures CountSeparators(a + [c] + rest) == 1 + CountSeparators(rest)
  {
    var s := a + [c] + rest;
    if |a| == 0 {
      assert s[1..] == rest;
    } else {
      assert s[1..] == a[1..] + [c] + rest;
      FieldsAfterField(a[1..], c, rest);
      assert a == [a[0]] + a[1..];
    }
  }

  /** The fields with the separators put back form the original text. */
  function Join(fields: seq<string>, separators: seq<char>): string
    requires |fields| == |separators| + 1
  {
    if |separators| == 0 then fields[0]
    else fields[0] + [separators[0]] + Join(fields[1..], separators[1..])
  }

  function Separators(s: string): (r: seq<char>)
    ensures |r| == CountSeparators(s)
  {
    if |s| == 0 then []
    else if IsSeparator(s[0]) then [s[0]] + Separators(s[1..])
    else Separators(s[1..])
  }

  /** Splitting loses nothing: the fields joined by the separators found
      give back the line. */
  lemma {:induction false} FieldsJoinBack(s: string)
    ensures Join(Fields(s), Separators(s)) == s
  {
    if |s| > 0 {
      FieldsJoinBack(s[1..]);
      var rest := Fields(s[1..]);
      if IsSeparator(s[0]) {
        assert Fields(s)[1..] == rest;
        assert s == [s[0]] + s[1..];
      } else {
        var seps := Separators(s[1..]);
        if |seps| == 0 {
          assert s == [s[0]] + s[1..];
        } else {
          assert Join(Fields(s), seps) == [s[0]] + rest[0] + [seps[0]] + Join(rest[1..], seps[1..]);
          assert s == [s[0]] + s[1..];
        }
      }
    }
  }

  function DropTrailingEmpty(fs: seq<string>): (r: seq<string>)
    ensures |r| <= |fs| && r == fs[..|r|]
    ensures |r| > 0 ==> r[|r| - 1] != ""
    ensures forall k | |r| <= k < |fs| :: fs[k] == ""
  {
    if |fs| > 0 && fs[|fs| - 1] == "" then DropTrailingEmpty(fs[..|fs| - 1]) else fs
  }

  /** `String.split(regex)` with limit 0: the whole string when no separator
      occurs, else the fields with trailing empty ones removed. */
  function Split(s: string): (r: seq<string>)
    ensures CountSeparators(s) == 0 ==> r == [s]
    ensures CountSeparators(s) > 0 ==> r == DropTrailingEmpty(Fields(s))
  {
    if CountSeparators(s) == 0 then [s] else DropTrailingEmpty(Fields(s))
  }

  /** `String.replace(target, "")` for a one-unit target. */
  function Remove(s: string, c: char): (r: string)
    ensures forall i | 0 <= i < |r| :: r[i] != c
    ensures |r| <= |s| && (|r| == |s| <==> forall i | 0 <= i < |s| :: s[i] != c)
    ensures (forall i | 0 <= i < |s| :: s[i] != c) ==> r == s
  {
    if |s| == 0 then []
    else if s[0] == c then Remove(s[1..], c)
    else [s[0]] + Remove(s[1..], c)
  }

  /** `String.replace(target, replacement)` for one-unit target and replacement. */
  function Replace(s: string, c: char, d: char): (r: string)
    ensures |r| == |s|
    ensures forall i | 0 <= i < |s| :: r[i] == if s[i] == c then d else s[i]
  {
    seq(|s|, i requires 0 <= i < |s| => if s[i] == c then d else s[i])
  }

  predicate IsDigit(c: char) {
    '0' <= c <= '9'
  }

  predicate AllDigits(s: string) {
    forall i | 0 <= i < |s| :: IsDigit(s[i])
  }

  /** The number an ASCII digit run denotes. */
  function DigitsValue(s: string): (n: nat)
    requires AllDigits(s)
    decreases |s|
  {
    if |s| == 0 then 0 else 10 * DigitsValue(s[..|s| - 1]) + (s[|s| - 1] as int - '0' as int)
  }

  /** The decimal digits of n, at least `width` of them (zero-padded). */
  function PadDigits(n: nat, width: nat): (s: string)
    ensures AllDigits(s) && |s| >= width && |s| >= 1
    decreases n + width
  {
    var last := [('0' as int + n % 10) as char];
    if n < 10 && width <= 1 then last
    else PadDigits(n / 10, if width > 0 then width - 1 else 0) + last
  }

  /** Writing a number out and reading it back gives the number. */
  lemma {:induction false} PadDigitsRoundTrip(n: nat, width: nat)
    ensures DigitsValue(PadDigits(n, width)) == n
    decreases n + width
  {
    var last := [('0' as int + n % 10) as char];
    if !(n < 10 && width <= 1) {
      var w := if width > 0 then width - 1 else 0;
      var front := PadDigits(n / 10, w);
      PadDigitsRoundTrip(n / 10, w);
      var s := front + last;
      assert s[..|s| - 1] == front;
    }
  }

  /** Numbers below 10^width take exactly width digits. */
  lemma {:induction false} PadDigitsWidth(n: nat, width: nat)
    requires width >= 1 && n < Pow10(width)
    ensures |PadDigits(n, width)| == width
    decreases n + width
  {
    if !(n < 10 && width <= 1) {
      PadDigitsWidth(n / 10, width - 1);
    }
  }

  function Pow10(k: nat): (r: nat)
    ensures r >= 1
  {
    if k == 0 then 1 else 10 * Pow10(k - 1)
  }
}
