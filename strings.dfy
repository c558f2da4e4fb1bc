/** Python string operations the pipeline relies on: str.lower, str.strip,
    str.join and the decimal rendering of an int inside an f-string. */
module Strings {

  /** Python's str.isspace(): the ASCII whitespace and separator controls plus
      the Unicode space characters. */
  predicate IsSpace(c: char) {
    var n := c as int;
    || 9 <= n <= 13 || 28 <= n <= 32
    || n == 0x85 || n == 0xA0 || n == 0x1680
    || 0x2000 <= n <= 0x200A
    || n == 0x2028 || n == 0x2029 || n == 0x202F || n == 0x205F || n == 0x3000
  }

  predicate IsUpper(c: char) {
    ('A' <= c <= 'Z') || (0xC0 <= c as int <= 0xDE && c as int != 0xD7)
  }

  /** str.lower() on one character, for ASCII and Latin-1 capitals. */
  function LowerChar(c: char): (r: char)
    ensures !IsUpper(r)
    ensures IsUpper(c) ==> r as int == c as int + 32
    ensures !IsUpper(c) ==> r == c
  {
    if IsUpper(c) then (c as int + 32) as char else c
  }

  function Lower(s: string): (r: string)
    ensures |r| == |s|
    ensures forall i :: 0 <= i < |s| ==> r[i] == LowerChar(s[i])
  {
    if s == [] then [] else [LowerChar(s[0])] + Lower(s[1..])
  }

  /** No character of the string is a capital. */
  predicate IsLower(s: string) {
    forall c :: c in s ==> !IsUpper(c)
  }

  /** Lowering yields a lower-case string and leaves a lower-case one alone. */
  lemma {:induction false} LowerOfLower(s: string)
    ensures IsLower(Lower(s))
    ensures IsLower(s) ==> Lower(s) == s
  {
    if s != [] {
      LowerOfLower(s[1..]);
      assert s[0] in s;
      assert forall c :: c in s[1..] ==> c in s;
    }
  }

  function StripLeft(s: string): (r: string)
    ensures |r| <= |s|
  {
    if s != [] && IsSpace(s[0]) then StripLeft(s[1..]) else s
  }

  function StripRight(s: string): (r: string)
    ensures |r| <= |s|
  {
    if s != [] && IsSpace(s[|s| - 1]) then StripRight(s[..|s| - 1]) else s
  }

  /** str.strip() with no argument: drop leading and trailing whitespace. */
  function Strip(s: string): string {
    StripRight(StripLeft(s))
  }

  /** A string that has no surrounding whitespace. */
  predicate IsTrimmed(s: string) {
    s == [] || (!IsSpace(s[0]) && !IsSpace(s[|s| - 1]))
  }

  lemma {:induction false} StripLeftShape(s: string)
    ensures StripLeft(s) == [] || !IsSpace(StripLeft(s)[0])
    ensures exists k :: 0 <= k <= |s| && StripLeft(s) == s[k..]
  {
    if s != [] && IsSpace(s[0]) {
      StripLeftShape(s[1..]);
      var k :| 0 <= k <= |s[1..]| && StripLeft(s[1..]) == s[1..][k..];
      assert StripLeft(s) == s[k + 1..];
    } else {
      assert StripLeft(s) == s[0..];
    }
  }

  lemma {:induction false} StripRightShape(s: string)
    ensures StripRight(s) == [] || !IsSpace(StripRight(s)[|StripRight(s)| - 1])
    ensures exists k :: 0 <= k <= |s| && StripRight(s) == s[..k]
  {
    if s != [] && IsSpace(s[|s| - 1]) {
      StripRightShape(s[..|s| - 1]);
      var k :| 0 <= k <= |s| - 1 && StripRight(s[..|s| - 1]) == s[..|s| - 1][..k];
      assert StripRight(s) == s[..k];
    } else {
      assert StripRight(s) == s[..|s|];
    }
  }

  /** A right-stripped string keeps the leading character it started with. */
  lemma {:induction false} StripRightKeepsHead(s: string)
    requires s != [] && !IsSpace(s[0])
    ensures StripRight(s) != [] && StripRight(s)[0] == s[0]
  {
    if IsSpace(s[|s| - 1]) {
      assert |s| > 1;
      StripRightKeepsHead(s[..|s| - 1]);
    }
  }

  /** The result of str.strip() has no surrounding whitespace. */
  lemma StripIsTrimmed(s: string)
    ensures IsTrimmed(Strip(s))
  {
    StripLeftShape(s);
    StripRightShape(StripLeft(s));
    if StripLeft(s) != [] {
      StripRightKeepsHead(StripLeft(s));
    }
  }

  /** Stripping a string without surrounding whitespace changes nothing. */
  lemma StripTrimmed(s: string)
    requires IsTrimmed(s)
    ensures Strip(s) == s
  {
  }

  /** str.strip() is idempotent. */
  lemma StripIdempotent(s: string)
    ensures Strip(Strip(s)) == Strip(s)
  {
    StripIsTrimmed(s);
    StripTrimmed(Strip(s));
  }

  /** sep.join(items) */
  function Join(items: seq<string>, sep: string): (r: string)
    ensures items == [] ==> r == ""
    ensures |items| == 1 ==> r == items[0]
  {
    if items == [] then ""
    else if |items| == 1 then items[0]
    else items[0] + sep + Join(items[1..], sep)
  }

  function DigitChar(d: nat): char
    requires d < 10
  {
    ('0' as int + d) as char
  }

  /** The decimal rendering of a non-negative int, as an f-string prints it. */
  function Decimal(n: nat): (r: string)
    ensures |r| >= 1
    ensures forall i :: 0 <= i < |r| ==> '0' <= r[i] <= '9'
  {
    if n < 10 then [DigitChar(n)] else Decimal(n / 10) + [DigitChar(n % 10)]
  }

  /** The value a decimal rendering denotes. */
  function DecimalValue(s: string): int
    decreases |s|
  {
    if s == [] then 0 else 10 * DecimalValue(s[..|s| - 1]) + (s[|s| - 1] as int - '0' as int)
  }

  /** Reading the rendered count back gives the count: the number in an error
      message is exactly the count that was found. */
  lemma {:induction false} DecimalRoundTrip(n: nat)
    ensures DecimalValue(Decimal(n)) == n
  {
    if n >= 10 {
      DecimalRoundTrip(n / 10);
      var s := Decimal(n);
      assert s[..|s| - 1] == Decimal(n / 10);
    }
  }

  /** `sub in s` for strings. */
  predicate Contains(s: string, sub: string) {
    exists i :: 0 <= i <= |s| && sub <= s[i..]
  }

  lemma ContainsAt(s: string, sub: string, i: nat)
    requires i + |sub| <= |s| && s[i..i + |sub|] == sub
    ensures Contains(s, sub)
  {
    assert sub <= s[i..];
  }

  /** A substring stays a substring inside a longer string. */
  lemma ContainsInContext(p: string, s: string, q: string, sub: string)
    requires Contains(s, sub)
    ensures Contains(p + s + q, sub)
  {
    var i :| 0 <= i <= |s| && sub <= s[i..];
    var t := p + s + q;
    assert t[|p| + i..|p| + i + |sub|] == s[i..i + |sub|];
    ContainsAt(t, sub, |p| + i);
  }

  lemma ContainsSelf(s: string)
    ensures Contains(s, s)
  {
    assert s <= s[0..];
  }

  /** Every item appears in the joined string. */
  lemma {:induction false} JoinContains(items: seq<string>, sep: string, k: nat)
    requires k < |items|
    ensures Contains(Join(items, sep), items[k])
  {
    if |items| == 1 {
      ContainsSelf(items[0]);
    } else if k == 0 {
      ContainsSelf(items[0]);
      ContainsInContext([], items[0], sep + Join(items[1..], sep), items[0]);
      assert [] + items[0] + (sep + Join(items[1..], sep)) == Join(items, sep);
    } else {
      JoinContains(items[1..], sep, k - 1);
      ContainsInContext(items[0] + sep, Join(items[1..], sep), [], items[k]);
      assert items[0] + sep + Join(items[1..], sep) + [] == Join(items, sep);
    }
  }
}
