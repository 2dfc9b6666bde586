/** String helpers the scanners and the event assembler use: counting
    leading spaces, Rust's `char::is_whitespace`, `trim`, `trim_start`,
    `trim_start_matches`, and ASCII `to_lowercase`. */
module Text {

  /** Number of spaces at the start of `s`. */
  function LeadingSpaces(s: string): (k: nat)
    ensures k <= |s|
    ensures forall j :: 0 <= j < k ==> s[j] == ' '
    ensures k < |s| ==> s[k] != ' '
  {
    if |s| > 0 && s[0] == ' ' then 1 + LeadingSpaces(s[1..]) else 0
  }

  /** Rust's `char::is_whitespace`: the Unicode White_Space property, which
      is also the class `\s` of the `regex` crate. */
  predicate IsWhitespace(c: char) {
    || c == ' '
    || ('\t' <= c <= '\r')
    || c == '\U{0085}' || c == '\U{00A0}' || c == '\U{1680}'
    || ('\U{2000}' <= c <= '\U{200A}')
    || c == '\U{2028}' || c == '\U{2029}' || c == '\U{202F}'
    || c == '\U{205F}' || c == '\U{3000}'
  }

  /** Drops the longest prefix of `t` whose characters satisfy `p`. */
  function DropWhile(t: string, p: char -> bool): (r: string)
    ensures |r| <= |t| && r == t[|t| - |r|..]
    ensures forall j :: 0 <= j < |t| - |r| ==> p(t[j])
    ensures |r| > 0 ==> !p(r[0])
  {
    if |t| > 0 && p(t[0]) then DropWhile(t[1..], p) else t
  }

  /** Drops the longest suffix of `t` whose characters satisfy `p`. */
  function DropLastWhile(t: string, p: char -> bool): (r: string)
    ensures |r| <= |t| && r == t[..|r|]
    ensures forall j :: |r| <= j < |t| ==> p(t[j])
    ensures |r| > 0 ==> !p(r[|r| - 1])
  {
    if |t| > 0 && p(t[|t| - 1]) then DropLastWhile(t[..|t| - 1], p) else t
  }

  /** `str::trim_start`. */
  function TrimStart(t: string): string {
    DropWhile(t, IsWhitespace)
  }

  /** The test "is one of `cs`" as a function value. */
  function OneOf(cs: set<char>): char -> bool {
    c => c in cs
  }

  /** `str::trim_start_matches(cs)` for a set of characters. */
  function TrimStartMatches(t: string, cs: set<char>): string {
    DropWhile(t, OneOf(cs))
  }

  /** `str::trim`. */
  function Trim(t: string): string {
    DropLastWhile(TrimStart(t), IsWhitespace)
  }

  function LowerChar(c: char): char {
    if 'A' <= c <= 'Z' then (c as int + 32) as char else c
  }

  /** `str::to_lowercase`, restricted to the ASCII letters. */
  function ToLower(w: string): (r: string)
    ensures |r| == |w|
  {
    seq(|w|, i requires 0 <= i < |w| => LowerChar(w[i]))
  }

  /** `r` is the slice of `t` at `i`, it neither starts nor ends with
      whitespace, and only whitespace follows it in `t`. */
  predicate TrimmedPiece(t: string, r: string, i: int) {
    && 0 <= i && i + |r| <= |t| && t[i..i + |r|] == r
    && (forall j :: i + |r| <= j < |t| ==> IsWhitespace(t[j]))
    && (|r| > 0 ==> !IsWhitespace(r[0]) && !IsWhitespace(r[|r| - 1]))
  }

  /** `Trim(t)` is what is left of `t` once its whitespace prefix and
      whitespace suffix are removed. */
  lemma {:induction false} TrimSlice(t: string)
    ensures var i := |t| - |TrimStart(t)|;
            && TrimmedPiece(t, Trim(t), i)
            && (forall j :: 0 <= j < i ==> IsWhitespace(t[j]))
  {
    var u := TrimStart(t);
    var i := |t| - |u|;
    var r := Trim(t);
    assert t[i..i + |r|] == r by {
      assert u == t[i..];
      assert t[i..i + |r|] == u[..|r|];
    }
    forall j | i + |r| <= j < |t|
      ensures IsWhitespace(t[j])
    {
      assert t[j] == u[j - i];
    }
    if |r| > 0 {
      assert r[0] == u[0];
    }
  }

  /** Trimming a prefix of `s` keeps a piece of it with only whitespace
      before it in `s`. */
  lemma {:induction false} TrimPrefix(s: string, k: nat)
    requires k <= |s|
    ensures exists i :: TrimmedPiece(s[..k], Trim(s[..k]), i) && forall j :: 0 <= j < i ==> IsWhitespace(s[j])
  {
    var before := s[..k];
    var i := |before| - |TrimStart(before)|;
    TrimSlice(before);
    assert forall j :: 0 <= j < i ==> s[j] == before[j];
    assert TrimmedPiece(before, Trim(before), i);
  }

  /** `DropWhile` on a slice `x` of `t` at `off`, stated in `t`'s own
      positions: the dropped characters pass the test, the first kept one
      fails it, and what is kept, `y`, is the slice's tail from `k`. */
  lemma {:induction false} DropWhileIn(t: string, x: string, off: int, p: char -> bool, y: string, k: int)
    requires 0 <= off && off + |x| <= |t| && t[off..off + |x|] == x
    requires y == DropWhile(x, p) && k == off + |x| - |y|
    ensures off <= k && forall j :: off <= j < k ==> p(t[j])
    ensures k < off + |x| ==> !p(t[k])
    ensures t[k..off + |x|] == y
  {
    forall j | off <= j < k
      ensures p(t[j])
    {
      assert t[j] == x[j - off];
    }
    if k < off + |x| {
      assert t[k] == x[k - off] == y[0];
    }
    assert t[k..off + |x|] == x[k - off..];
  }

  /** Trimming leaves nothing exactly when the string is all whitespace. */
  lemma {:induction false} TrimEmpty(t: string)
    ensures Trim(t) == [] <==> forall j :: 0 <= j < |t| ==> IsWhitespace(t[j])
  {
    TrimSlice(t);
  }

  /** Leading spaces are counted up to the first other character. */
  lemma {:induction false} LeadingSpacesOf(s: string, k: nat)
    requires k <= |s| && forall j :: 0 <= j < k ==> s[j] == ' '
    requires k < |s| ==> s[k] != ' '
    ensures LeadingSpaces(s) == k
  {
  }

  /** A prefix of characters that satisfy `p` is dropped whole. */
  lemma {:induction false} DropWhileSkip(a: string, b: string, p: char -> bool)
    requires forall k :: 0 <= k < |a| ==> p(a[k])
    ensures DropWhile(a + b, p) == DropWhile(b, p)
  {
    if |a| > 0 {
      assert (a + b)[1..] == a[1..] + b;
      DropWhileSkip(a[1..], b, p);
    } else {
      assert a + b == b;
    }
  }

  /** A suffix of characters that satisfy `p` is dropped whole. */
  lemma {:induction false} DropLastWhileSkip(a: string, b: string, p: char -> bool)
    requires forall k :: 0 <= k < |b| ==> p(b[k])
    ensures DropLastWhile(a + b, p) == DropLastWhile(a, p)
  {
    if |b| > 0 {
      assert (a + b)[..|a + b| - 1] == a + b[..|b| - 1];
      DropLastWhileSkip(a, b[..|b| - 1], p);
    } else {
      assert a + b == a;
    }
  }

  /** One character of `cs` before a text that does not start with one is
      all `trim_start_matches` removes. */
  lemma {:induction false} TrimStartMatchesOne(c: char, t: string, cs: set<char>)
    requires c in cs && (t == [] || t[0] !in cs)
    ensures TrimStartMatches([c] + t, cs) == t
  {
    assert OneOf(cs)(c);
    DropWhileSkip([c], t, OneOf(cs));
    if t != [] {
      assert !OneOf(cs)(t[0]);
    }
  }

  /** One space before a text that does not start with whitespace is all
      `trim_start` removes. */
  lemma {:induction false} TrimStartOne(t: string)
    requires t == [] || !IsWhitespace(t[0])
    ensures TrimStart([' '] + t) == t
  {
    DropWhileSkip([' '], t, IsWhitespace);
  }

  /** Trimming whitespace around a text that neither starts nor ends with
      whitespace gives back that text. */
  lemma {:induction false} TrimPadded(lead: string, x: string, trail: string)
    requires forall k :: 0 <= k < |lead| ==> IsWhitespace(lead[k])
    requires forall k :: 0 <= k < |trail| ==> IsWhitespace(trail[k])
    requires x == [] || (!IsWhitespace(x[0]) && !IsWhitespace(x[|x| - 1]))
    ensures Trim(lead + x + trail) == x
  {
    assert lead + x + trail == lead + (x + trail);
    DropWhileSkip(lead, x + trail, IsWhitespace);
    if x == [] {
      assert x + trail == trail + [];
      DropWhileSkip(trail, [], IsWhitespace);
      assert TrimStart(lead + x + trail) == [];
    } else {
      assert (x + trail)[0] == x[0];
      assert TrimStart(lead + x + trail) == x + trail;
      DropLastWhileSkip(x, trail, IsWhitespace);
    }
  }
}
