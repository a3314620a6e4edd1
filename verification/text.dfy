/** The string operations the services rely on: `String.Trim`, `String.IsNullOrWhiteSpace`
    and `String.Join`, over strings as sequences of Unicode scalar values. */
module Text {
  import opened Options

  /** The characters `System.Char.IsWhiteSpace` accepts: the Unicode space, line and
      paragraph separators (categories Zs, Zl, Zp) and the controls U+0009..U+000D, U+0085. */
  predicate IsWhiteSpace(c: char) {
    || c == ' '
    || ('\t' <= c <= '\r')
    || c == '\U{0085}'
    || c == '\U{00A0}'
    || c == '\U{1680}'
    || ('\U{2000}' <= c <= '\U{200A}')
    || c == '\U{2028}'
    || c == '\U{2029}'
    || c == '\U{202F}'
    || c == '\U{205F}'
    || c == '\U{3000}'
  }

  predicate AllWhiteSpace(s: string) {
    forall i :: 0 <= i < |s| ==> IsWhiteSpace(s[i])
  }

  /** `core` is what is left of `s` once its leading and trailing white space is cut off:
      a slice of `s`, surrounded in `s` by white space only, that neither starts nor ends
      with white space. */
  ghost predicate TrimmedFrom(s: string, core: string) {
    exists i :: 0 <= i <= |s| - |core| && TrimmedAt(s, core, i)
  }

  ghost predicate TrimmedAt(s: string, core: string, i: int)
    requires 0 <= i <= |s| - |core|
  {
    && core == s[i..i + |core|]
    && AllWhiteSpace(s[..i])
    && AllWhiteSpace(s[i + |core|..])
    && (core == [] || (!IsWhiteSpace(core[0]) && !IsWhiteSpace(core[|core| - 1])))
  }

  /** The index of the first character at or after `i` that is not white space, or `|s|`. */
  function SkipForward(s: string, i: nat): (n: nat)
    requires i <= |s|
    ensures i <= n <= |s|
    ensures forall k :: i <= k < n ==> IsWhiteSpace(s[k])
    ensures n == |s| || !IsWhiteSpace(s[n])
    decreases |s| - i
  {
    if i < |s| && IsWhiteSpace(s[i]) then SkipForward(s, i + 1) else i
  }

  /** One past the last character before `j` that is not white space, or 0. */
  function SkipBackward(s: string, j: nat): (n: nat)
    requires j <= |s|
    ensures n <= j
    ensures forall k :: n <= k < j ==> IsWhiteSpace(s[k])
    ensures n == 0 || !IsWhiteSpace(s[n - 1])
  {
    if j > 0 && IsWhiteSpace(s[j - 1]) then SkipBackward(s, j - 1) else j
  }

  function TrimStart(s: string): (r: string)
    ensures |r| <= |s| && r == s[|s| - |r|..]
    ensures AllWhiteSpace(s[..|s| - |r|])
    ensures r == [] || !IsWhiteSpace(r[0])
  {
    s[SkipForward(s, 0)..]
  }

  function TrimEnd(s: string): (r: string)
    ensures |r| <= |s| && r == s[..|r|]
    ensures AllWhiteSpace(s[|r|..])
    ensures r == [] || !IsWhiteSpace(r[|r| - 1])
  {
    s[..SkipBackward(s, |s|)]
  }

  /** `String.Trim()`: removes leading and trailing white space. */
  function Trim(s: string): (r: string)
    ensures TrimmedFrom(s, r)
  {
    var front := TrimStart(s);
    var r := TrimEnd(front);
    var i := |s| - |front|;
    assert s[i..i + |r|] == r;
    assert s[i + |r|..] == front[|r|..];
    assert r == [] || r[0] == front[0];
    assert TrimmedAt(s, r, i);
    r
  }

  /** At most one string is the trimmed form of `s`. */
  lemma TrimmedFromUnique(s: string, a: string, b: string)
    requires TrimmedFrom(s, a) && TrimmedFrom(s, b)
    ensures a == b
  {
    var i :| 0 <= i <= |s| - |a| && TrimmedAt(s, a, i);
    var j :| 0 <= j <= |s| - |b| && TrimmedAt(s, b, j);
    SameCore(s, a, i, b, j);
  }

  lemma SameCore(s: string, a: string, i: int, b: string, j: int)
    requires 0 <= i <= |s| - |a| && TrimmedAt(s, a, i)
    requires 0 <= j <= |s| - |b| && TrimmedAt(s, b, j)
    ensures a == b
  {
    if a == [] && b != [] {
      NotAllWhiteSpace(s, b, j);
      EmptyCore(s, i);
    } else if a != [] && b == [] {
      NotAllWhiteSpace(s, a, i);
      EmptyCore(s, j);
    } else if a != [] && b != [] {
      CoreBounds(s, a, i, b, j);
      CoreBounds(s, b, j, a, i);
    }
  }

  /** A non-empty core starts no later, and ends no earlier, than any other non-empty core. */
  lemma CoreBounds(s: string, a: string, i: int, b: string, j: int)
    requires 0 <= i <= |s| - |a| && TrimmedAt(s, a, i) && a != []
    requires 0 <= j <= |s| - |b| && TrimmedAt(s, b, j) && b != []
    ensures i <= j && j + |b| <= i + |a|
  {
    assert s[j] == b[0];
    assert s[j + |b| - 1] == b[|b| - 1];
    forall k | 0 <= k < i ensures IsWhiteSpace(s[k]) {
      assert s[..i][k] == s[k];
    }
    forall k | i + |a| <= k < |s| ensures IsWhiteSpace(s[k]) {
      assert s[i + |a|..][k - i - |a|] == s[k];
    }
  }

  /** A non-empty trimmed core at `i` means `s` holds a character that is not white space. */
  lemma NotAllWhiteSpace(s: string, core: string, i: int)
    requires 0 <= i <= |s| - |core| && core != [] && TrimmedAt(s, core, i)
    ensures !AllWhiteSpace(s)
  {
    assert s[i] == core[0];
  }

  /** Trimming a second time changes nothing. */
  lemma TrimIdempotent(s: string)
    ensures Trim(Trim(s)) == Trim(s)
  {
    var t := Trim(s);
    assert TrimmedAt(t, t, 0);
    TrimmedFromUnique(t, Trim(t), t);
  }

  /** A string that neither starts nor ends with white space is its own trimmed form. */
  lemma TrimOfTrimmed(s: string)
    requires s == [] || (!IsWhiteSpace(s[0]) && !IsWhiteSpace(s[|s| - 1]))
    ensures Trim(s) == s
  {
    assert TrimmedAt(s, s, 0);
    TrimmedFromUnique(s, Trim(s), s);
  }

  /** Keys that differ only in leading or trailing white space trim to the same string. */
  lemma TrimIgnoresPadding(front: string, s: string, back: string)
    requires AllWhiteSpace(front) && AllWhiteSpace(back)
    ensures Trim(front + s + back) == Trim(s)
  {
    var t := Trim(s);
    var i :| 0 <= i <= |s| - |t| && TrimmedAt(s, t, i);
    PaddedCore(front, s, back, t, i);
    TrimmedFromUnique(front + s + back, Trim(front + s + back), t);
  }

  lemma PaddedCore(front: string, s: string, back: string, t: string, i: int)
    requires AllWhiteSpace(front) && AllWhiteSpace(back)
    requires 0 <= i <= |s| - |t| && TrimmedAt(s, t, i)
    ensures TrimmedFrom(front + s + back, t)
  {
    var padded := front + s + back;
    var k := |front| + i;
    assert padded[k..k + |t|] == s[i..i + |t|];
    assert padded[..k] == front + s[..i];
    AllWhiteSpaceConcat(front, s[..i]);
    assert padded[k + |t|..] == s[i + |t|..] + back;
    AllWhiteSpaceConcat(s[i + |t|..], back);
    assert TrimmedAt(padded, t, k);
  }

  lemma AllWhiteSpaceConcat(a: string, b: string)
    requires AllWhiteSpace(a) && AllWhiteSpace(b)
    ensures AllWhiteSpace(a + b)
  {
    forall k | 0 <= k < |a + b| ensures IsWhiteSpace((a + b)[k]) {
      if k >= |a| { assert (a + b)[k] == b[k - |a|]; }
    }
  }

  /** `s?.Trim()`: a null string stays null. */
  function TrimOrNull(s: Option<string>): (r: Option<string>)
    ensures r.None? <==> s.None?
    ensures s.Some? ==> TrimmedFrom(s.value, r.value)
  {
    match s
    case None => None
    case Some(v) => Some(Trim(v))
  }

  /** `String.IsNullOrWhiteSpace`. */
  predicate IsNullOrWhiteSpace(s: Option<string>) {
    s.None? || AllWhiteSpace(s.value)
  }

  /** A present string is blank exactly when trimming leaves nothing of it. */
  lemma BlankIffTrimsToEmpty(s: string)
    ensures IsNullOrWhiteSpace(Some(s)) <==> Trim(s) == ""
  {
    var t := Trim(s);
    var i :| 0 <= i <= |s| - |t| && TrimmedAt(s, t, i);
    if t != [] {
      NotAllWhiteSpace(s, t, i);
    } else {
      EmptyCore(s, i);
    }
  }

  /** White space up to `i` and from `i` on is white space throughout. */
  lemma EmptyCore(s: string, i: int)
    requires 0 <= i <= |s| && AllWhiteSpace(s[..i]) && AllWhiteSpace(s[i..])
    ensures AllWhiteSpace(s)
  {
    assert s == s[..i] + s[i..];
    AllWhiteSpaceConcat(s[..i], s[i..]);
  }

  function TotalLength(parts: seq<string>): nat {
    if parts == [] then 0 else |parts[0]| + TotalLength(parts[1..])
  }

  /** `String.Join(sep, parts)`: the parts in order with `sep` between neighbours. */
  function Join(sep: string, parts: seq<string>): (r: string)
    ensures parts == [] ==> r == ""
    ensures |parts| > 0 ==> parts[0] <= r
    ensures |r| == TotalLength(parts) + (if parts == [] then 0 else (|parts| - 1) * |sep|)
  {
    if parts == [] then ""
    else if |parts| == 1 then parts[0]
    else parts[0] + sep + Join(sep, parts[1..])
  }

  /** Joining grows at the end: one more part adds one separator and the part itself. */
  lemma {:induction false} JoinAppend(sep: string, parts: seq<string>, last: string)
    requires parts != []
    ensures Join(sep, parts + [last]) == Join(sep, parts) + sep + last
  {
    if |parts| == 1 {
      assert (parts + [last])[1..] == [last];
    } else {
      assert (parts + [last])[1..] == parts[1..] + [last];
      JoinAppend(sep, parts[1..], last);
    }
  }
}
