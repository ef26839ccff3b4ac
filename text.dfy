/**
  The few string operations of Python's `str` that the activities system
  relies on: `lower()`, `strip()`, `startswith()` and the substring test `in`.
 */
module Text {

  datatype Option<T> = None | Some(value: T)

  /** The characters `lower()` changes in this model: the ASCII capitals. */
  predicate IsUpper(c: char) {
    'A' <= c <= 'Z'
  }

  function LowerChar(c: char): (d: char)
    ensures !IsUpper(d)
    ensures d == c <==> !IsUpper(c)
  {
    if IsUpper(c) then (c as int - 'A' as int + 'a' as int) as char else c
  }

  /** `s.lower()`, character by character. */
  function Lower(s: string): (r: string)
    ensures |r| == |s|
    ensures forall i :: 0 <= i < |s| ==> r[i] == LowerChar(s[i])
  {
    seq(|s|, i requires 0 <= i < |s| => LowerChar(s[i]))
  }

  /** A string `lower()` leaves unchanged. */
  predicate IsLower(s: string) {
    forall i :: 0 <= i < |s| ==> !IsUpper(s[i])
  }

  lemma LowerIsLower(s: string)
    ensures IsLower(Lower(s))
    ensures Lower(Lower(s)) == Lower(s)
  {
  }

  lemma LowerOfLower(s: string)
    requires IsLower(s)
    ensures Lower(s) == s
  {
  }

  /** `Lower` changes exactly the strings that have a capital letter. */
  lemma LowerChanges(s: string)
    ensures Lower(s) == s <==> IsLower(s)
  {
    LowerIsLower(s);
    if IsLower(s) {
      LowerOfLower(s);
    }
  }

  /** `s` holds no occurrence of the character `c`. */
  predicate Lacks(s: string, c: char) {
    forall k :: 0 <= k < |s| ==> s[k] != c
  }

  lemma LacksConcat(a: string, b: string, c: char)
    requires Lacks(a, c) && Lacks(b, c)
    ensures Lacks(a + b, c)
  {
  }

  /**
    The characters for which Python's `str.isspace()` holds: the ASCII
    controls 9 to 13 and 28 to 31, the space, and the Unicode spaces.
   */
  predicate IsSpace(c: char) {
    var n := c as int;
    || 9 <= n <= 13
    || 28 <= n <= 32
    || n == 0x85 || n == 0xA0 || n == 0x1680
    || 0x2000 <= n <= 0x200A
    || n == 0x2028 || n == 0x2029 || n == 0x202F || n == 0x205F || n == 0x3000
  }

  /** Neither end of `s` is whitespace. */
  predicate IsStripped(s: string) {
    s == [] || (!IsSpace(s[0]) && !IsSpace(s[|s| - 1]))
  }

  /** `s.lstrip()`: the suffix that remains after the leading whitespace. */
  function TrimLeft(s: string): (r: string)
    ensures |r| <= |s| && r == s[|s| - |r|..]
    ensures forall i :: 0 <= i < |s| - |r| ==> IsSpace(s[i])
    ensures r == [] || !IsSpace(r[0])
    decreases |s|
  {
    if s != [] && IsSpace(s[0]) then TrimLeft(s[1..]) else s
  }

  /** `s.rstrip()`: the prefix that remains before the trailing whitespace. */
  function TrimRight(s: string): (r: string)
    ensures |r| <= |s| && r == s[..|r|]
    ensures forall i :: |r| <= i < |s| ==> IsSpace(s[i])
    ensures r == [] || !IsSpace(r[|r| - 1])
    decreases |s|
  {
    if s != [] && IsSpace(s[|s| - 1]) then TrimRight(s[..|s| - 1]) else s
  }

  /**
    `s.strip()`: the slice of `s` left once whitespace is removed from both
    ends; everything cut away is whitespace and the result has none at its ends.
   */
  function Strip(s: string): (r: string)
    ensures IsStripped(r)
    ensures exists i, j :: 0 <= i <= j <= |s| && r == s[i..j]
                        && (forall k :: 0 <= k < i ==> IsSpace(s[k]))
                        && (forall k :: j <= k < |s| ==> IsSpace(s[k]))
  {
    var left := TrimLeft(s);
    var r := TrimRight(left);
    var i := |s| - |left|;
    assert r == s[i..i + |r|];
    assert r != [] ==> r[0] == left[0];
    r
  }

  /** Stripping a string that has no whitespace at its ends changes nothing. */
  lemma {:induction false} StripStripped(s: string)
    requires IsStripped(s)
    ensures Strip(s) == s
  {
    if s != [] {
      assert TrimLeft(s) == s;
      assert TrimRight(s) == s;
    }
  }

  /** `s.startswith(prefix)`. */
  predicate StartsWith(s: string, prefix: string) {
    |prefix| <= |s| && s[..|prefix|] == prefix
  }

  /** `t in s` for strings: `t` occurs somewhere in `s`. */
  predicate Contains(s: string, t: string) {
    exists i {:trigger StartsWith(s[i..], t)} :: 0 <= i <= |s| && StartsWith(s[i..], t)
  }

  /** `s.find(t, i)`: the first position from `i` on where `t` occurs in `s`, if any. */
  function FindFrom(s: string, t: string, i: nat): (r: Option<nat>)
    requires i <= |s| + 1
    ensures r.Some? ==> i <= r.value <= |s| && StartsWith(s[r.value..], t)
    ensures r.Some? ==> forall k {:trigger StartsWith(s[k..], t)} :: i <= k < r.value ==> !StartsWith(s[k..], t)
    ensures r.None? ==> forall k {:trigger StartsWith(s[k..], t)} :: i <= k <= |s| ==> !StartsWith(s[k..], t)
    decreases |s| + 1 - i
  {
    if i > |s| then None
    else if StartsWith(s[i..], t) then Some(i)
    else FindFrom(s, t, i + 1)
  }

  /** `s.find(t)`: the first position where `t` occurs in `s`, if any. */
  function Find(s: string, t: string): (r: Option<nat>)
    ensures r.Some? ==> r.value <= |s| && StartsWith(s[r.value..], t)
    ensures r.Some? ==> forall k {:trigger StartsWith(s[k..], t)} :: 0 <= k < r.value ==> !StartsWith(s[k..], t)
    ensures r.None? <==> !Contains(s, t)
  {
    FindFrom(s, t, 0)
  }

  /**
    `s.split(sep)[-1]`: the piece after the last separator that a
    left-to-right split cuts at; it holds no separator, and it is `s` itself
    when `s` holds none.
   */
  function LastPiece(s: string, sep: string): (r: string)
    requires sep != []
    ensures |r| <= |s| && r == s[|s| - |r|..]
    ensures !Contains(r, sep)
    ensures !Contains(s, sep) ==> r == s
    decreases |s|
  {
    match Find(s, sep)
    case None => s
    case Some(i) =>
      var rest := s[i + |sep|..];
      var r := LastPiece(rest, sep);
      assert r == s[|s| - |r|..];
      r
  }

  /** `s.rfind(c)` for one character: its last position, if any. */
  function FindLast(s: string, c: char): (r: Option<nat>)
    ensures r.Some? ==> r.value < |s| && s[r.value] == c
    ensures r.Some? ==> forall k :: r.value < k < |s| ==> s[k] != c
    ensures r.None? <==> forall k :: 0 <= k < |s| ==> s[k] != c
    decreases |s|
  {
    if s == [] then None
    else if s[|s| - 1] == c then Some(|s| - 1)
    else FindLast(s[..|s| - 1], c)
  }

  /** An occurrence with none before it is the one `Find` reports. */
  lemma FindFirstOccurrence(s: string, t: string, i: nat)
    requires i <= |s| && StartsWith(s[i..], t)
    requires forall k :: 0 <= k < i ==> !StartsWith(s[k..], t)
    ensures Find(s, t) == Some(i)
  {
    assert Contains(s, t);
  }

  /** `split(sep)[-1]` of a string is that of what follows its first separator. */
  lemma LastPieceAfterFirst(s: string, sep: string, i: nat)
    requires sep != [] && Find(s, sep) == Some(i)
    ensures LastPiece(s, sep) == LastPiece(s[i + |sep|..], sep)
  {
  }
}
