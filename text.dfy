/** Character-level helpers of the record store: Python's str.strip(), str.upper()
    and str.lower() over ASCII, the roll normalisation built from them, and the
    code-point order in which Python compares strings. */
module Text {

  /** Python's str.isspace() restricted to ASCII: tab, line feed, vertical tab,
      form feed, carriage return (9-13), the separators 0x1C-0x1F and space. */
  predicate IsSpace(c: char) {
    var n := c as int;
    n == 32 || 9 <= n <= 13 || 28 <= n <= 31
  }

  predicate IsLowerAscii(c: char) {
    'a' <= c <= 'z'
  }

  predicate IsUpperAscii(c: char) {
    'A' <= c <= 'Z'
  }

  /** Drops the leading whitespace: the result is a suffix of s, the dropped
      prefix is all whitespace and the result does not start with whitespace. */
  function TrimStart(s: string): (r: string)
    ensures |r| <= |s| && r == s[|s| - |r|..]
    ensures forall i :: 0 <= i < |s| - |r| ==> IsSpace(s[i])
    ensures r != [] ==> !IsSpace(r[0])
  {
    if |s| > 0 && IsSpace(s[0]) then TrimStart(s[1..]) else s
  }

  /** Drops the trailing whitespace: the result is a prefix of s, the dropped
      suffix is all whitespace and the result does not end with whitespace. */
  function TrimEnd(s: string): (r: string)
    ensures |r| <= |s| && r == s[..|r|]
    ensures forall i :: |r| <= i < |s| ==> IsSpace(s[i])
    ensures r != [] ==> !IsSpace(r[|r| - 1])
  {
    if |s| > 0 && IsSpace(s[|s| - 1]) then TrimEnd(s[..|s| - 1]) else s
  }

  /** Python's s.strip() with no argument (ASCII whitespace only): the
      result is the slice of s that remains once the whitespace on both ends
      is dropped. */
  function Strip(s: string): (r: string)
    ensures |r| <= |s|
    ensures exists a :: Trimmed(s, r, a)
    ensures r != [] ==> !IsSpace(r[0]) && !IsSpace(r[|r| - 1])
    ensures r == [] <==> forall i :: 0 <= i < |s| ==> IsSpace(s[i])
  {
    var t := TrimStart(s);
    var r := TrimEnd(t);
    assert Trimmed(s, r, |s| - |t|);
    r
  }

  /** r is s[a..a + |r|] and everything of s outside that slice is whitespace. */
  ghost predicate Trimmed(s: string, r: string, a: int) {
    && 0 <= a <= a + |r| <= |s|
    && r == s[a..a + |r|]
    && (forall i :: 0 <= i < a ==> IsSpace(s[i]))
    && (forall i :: a + |r| <= i < |s| ==> IsSpace(s[i]))
  }

  function UpperChar(c: char): (u: char)
    ensures !IsLowerAscii(u)
    ensures IsSpace(u) == IsSpace(c)
  {
    if IsLowerAscii(c) then (c as int - 32) as char else c
  }

  function LowerChar(c: char): (l: char)
    ensures !IsUpperAscii(l)
  {
    if IsUpperAscii(c) then (c as int + 32) as char else c
  }

  /** Python's s.upper() on ASCII letters; other characters are kept. */
  function Upper(s: string): (r: string)
    ensures |r| == |s|
    ensures forall i :: 0 <= i < |s| ==> r[i] == UpperChar(s[i])
  {
    seq(|s|, i requires 0 <= i < |s| => UpperChar(s[i]))
  }

  /** Python's s.lower() on ASCII letters; other characters are kept. */
  function Lower(s: string): (r: string)
    ensures |r| == |s|
    ensures forall i :: 0 <= i < |s| ==> r[i] == LowerChar(s[i])
  {
    seq(|s|, i requires 0 <= i < |s| => LowerChar(s[i]))
  }

  /** normalize_roll: strip surrounding whitespace, then upper-case. The key
      has no lower-case ASCII letter, no whitespace at either end, and is
      empty exactly when the roll is all whitespace; NormalizeRollSlice says
      which characters it holds. */
  function NormalizeRoll(roll: string): (key: string)
    ensures |key| <= |roll|
    ensures forall i :: 0 <= i < |key| ==> !IsLowerAscii(key[i])
    ensures key != [] ==> !IsSpace(key[0]) && !IsSpace(key[|key| - 1])
    ensures key == [] <==> forall i :: 0 <= i < |roll| ==> IsSpace(roll[i])
  {
    Upper(Strip(roll))
  }

  /** The key is the roll with its surrounding whitespace dropped, upper-cased. */
  lemma NormalizeRollSlice(roll: string)
    ensures exists a :: UpperOfTrimmed(roll, NormalizeRoll(roll), a)
  {
    var s := Strip(roll);
    var a :| Trimmed(roll, s, a);
    var key := NormalizeRoll(roll);
    assert key == Upper(s);
    UpperOfSlice(roll, s, key, a);
  }

  /** Upper-casing the slice that Trimmed picks out. */
  lemma UpperOfSlice(roll: string, s: string, key: string, a: int)
    requires Trimmed(roll, s, a) && |key| == |s|
    requires forall i :: 0 <= i < |s| ==> key[i] == UpperChar(s[i])
    ensures UpperOfTrimmed(roll, key, a)
  {
    forall i | 0 <= i < |key|
      ensures key[i] == UpperChar(roll[a + i])
    {
      assert s[i] == roll[a + i];
    }
  }

  /** key is the slice roll[a..a + |key|] upper-cased, and everything of roll
      outside that slice is whitespace. */
  ghost predicate UpperOfTrimmed(roll: string, key: string, a: int) {
    && 0 <= a <= a + |key| <= |roll|
    && (forall i :: 0 <= i < |key| ==> key[i] == UpperChar(roll[a + i]))
    && (forall i :: 0 <= i < a ==> IsSpace(roll[i]))
    && (forall i :: a + |key| <= i < |roll| ==> IsSpace(roll[i]))
  }

  /** A string that starts and ends with a non-space character is its own strip. */
  lemma StripTrimmed(s: string)
    requires s != [] ==> !IsSpace(s[0]) && !IsSpace(s[|s| - 1])
    ensures Strip(s) == s
  {
    assert TrimStart(s) == s;
  }

  /** Normalising twice is normalising once, so a roll stored in normalised
      form is its own index key. */
  lemma NormalizeIdempotent(roll: string)
    ensures NormalizeRoll(NormalizeRoll(roll)) == NormalizeRoll(roll)
  {
    NormalFormFixed(NormalizeRoll(roll));
  }

  /** A key already in normal form (no lower-case ASCII letter, no whitespace
      at either end) is its own normalisation. */
  lemma NormalFormFixed(key: string)
    requires forall i :: 0 <= i < |key| ==> !IsLowerAscii(key[i])
    requires key != [] ==> !IsSpace(key[0]) && !IsSpace(key[|key| - 1])
    ensures NormalizeRoll(key) == key
  {
    assert Strip(key) == key by { StripTrimmed(key); }
    assert Upper(key) == key by { UpperKeeps(key); }
  }

  /** Normalising ignores a strip done beforehand, as delete_student and
      search_student do. */
  lemma NormalizeStripped(roll: string)
    ensures NormalizeRoll(Strip(roll)) == NormalizeRoll(roll)
  {
    StripTrimmed(Strip(roll));
  }

  /** Upper-casing a string with no lower-case ASCII letter changes nothing. */
  lemma UpperKeeps(s: string)
    requires forall i :: 0 <= i < |s| ==> !IsLowerAscii(s[i])
    ensures Upper(s) == s
  {
    assert forall i :: 0 <= i < |s| ==> Upper(s)[i] == s[i];
  }

  /** Python's `<` on str: lexicographic comparison by code point, a proper
      prefix being smaller. */
  predicate TextLess(s: string, t: string) {
    if s == [] then t != []
    else if t == [] then false
    else s[0] < t[0] || (s[0] == t[0] && TextLess(s[1..], t[1..]))
  }

  lemma {:induction false} TextLessAsymmetric(s: string, t: string)
    requires TextLess(s, t)
    ensures !TextLess(t, s)
  {
    if s != [] && t != [] && s[0] == t[0] {
      TextLessAsymmetric(s[1..], t[1..]);
    }
  }

  lemma {:induction false} TextLessTransitive(s: string, t: string, u: string)
    requires TextLess(s, t) && TextLess(t, u)
    ensures TextLess(s, u)
  {
    if s != [] && t != [] && u != [] && s[0] == t[0] && t[0] == u[0] {
      TextLessTransitive(s[1..], t[1..], u[1..]);
    }
  }

  lemma {:induction false} TextLessTotal(s: string, t: string)
    ensures s == t || TextLess(s, t) || TextLess(t, s)
  {
    if s != [] && t != [] && s[0] == t[0] {
      TextLessTotal(s[1..], t[1..]);
      if s[1..] == t[1..] {
        assert s == [s[0]] + s[1..] && t == [t[0]] + t[1..];
      }
    }
  }
}
