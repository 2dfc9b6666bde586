/** Rust's `str::split` and `str::splitn` on single-character delimiters, the
    running offsets the scanners keep while they walk the pieces, and the
    search for the first piece a parser accepts.

    Strings are sequences of characters and offsets are indices into them;
    they agree with Rust's byte offsets as long as every character is one
    byte (ASCII input). */
module Words {
  import opened Wrappers

  /** The characters `find_date` and `find_time` split their input on. */
  const WordDelims: set<char> := {' ', ','}

  predicate NoDelim(s: string, delims: set<char>) {
    forall j :: 0 <= j < |s| ==> s[j] !in delims
  }

  /** The pieces of `s` from position `j` on, `cur` being the part of the
      current piece read so far: a delimiter closes the current piece and
      opens an empty one, any other character extends it. */
  function SplitScan(s: string, delims: set<char>, j: nat, cur: string): (ws: seq<string>)
    requires j <= |s|
    ensures |ws| >= 1
    decreases |s| - j
  {
    if j == |s| then [cur]
    else if s[j] in delims then [cur] + SplitScan(s, delims, j + 1, [])
    else SplitScan(s, delims, j + 1, cur + [s[j]])
  }

  /** `s.split(delims)`: the pieces between delimiters, empty pieces included;
      there is always at least one piece. */
  function Split(s: string, delims: set<char>): (ws: seq<string>)
    ensures |ws| >= 1
  {
    SplitScan(s, delims, 0, [])
  }

  /** As `SplitScan`, with at most `n` pieces: the last one takes the whole
      rest of the string, delimiters included. */
  function SplitNScan(s: string, delims: set<char>, j: nat, cur: string, n: nat): (ws: seq<string>)
    requires j <= |s| && n >= 1
    ensures 1 <= |ws| <= n
    decreases |s| - j
  {
    if n == 1 then [cur + s[j..]]
    else if j == |s| then [cur]
    else if s[j] in delims then [cur] + SplitNScan(s, delims, j + 1, [], n - 1)
    else SplitNScan(s, delims, j + 1, cur + [s[j]], n)
  }

  /** `s.splitn(n, delims)`. */
  function SplitN(s: string, delims: set<char>, n: nat): (ws: seq<string>)
    requires n >= 1
    ensures 1 <= |ws| <= n
  {
    SplitNScan(s, delims, 0, [], n)
  }

  /** Start of piece `i` when the pieces are laid out with one delimiter
      between neighbours: the running `start` of both scanners. */
  function Offset(ws: seq<string>, i: nat): nat
    requires i <= |ws|
  {
    if i == 0 then 0 else Offset(ws, i - 1) + |ws[i - 1]| + 1
  }

  /** Index of the first piece that `parse` accepts. */
  function FirstWord<T>(ws: seq<string>, parse: string -> Option<T>): (r: Option<nat>)
    ensures r.Some? ==> r.value < |ws| && parse(ws[r.value]).Some?
  {
    if |ws| == 0 then None
    else if parse(ws[0]).Some? then Some(0)
    else match FirstWord(ws[1..], parse)
      case None => None
      case Some(i) => Some(i + 1)
  }

  /** A parsed word and its range `[start, end)` in the string. */
  datatype Found<+T> = Found(value: T, start: nat, end: nat)

  /** The first piece of `s.split(delims)` that `parse` accepts, with the
      range a scanner that keeps the running offset reports for it. */
  function FindWord<T>(s: string, delims: set<char>, parse: string -> Option<T>): (r: Option<Found<T>>) {
    var ws := Split(s, delims);
    match FirstWord(ws, parse)
    case None => None
    case Some(i) => Some(Found(parse(ws[i]).value, Offset(ws, i), Offset(ws, i) + |ws[i]|))
  }

  /** A search result with its range moved `n` characters on. */
  function Shifted<T>(r: Option<Found<T>>, n: nat): Option<Found<T>> {
    match r
    case None => None
    case Some(f) => Some(Found(f.value, n + f.start, n + f.end))
  }

  lemma {:induction false} ShiftedTwice<T>(r: Option<Found<T>>, m: nat, n: nat)
    ensures Shifted(Shifted(r, m), n) == Shifted(r, m + n)
  {
  }

  /** `s[a..b]` is one of the pieces `s.split(delims)` yields: it holds no
      delimiter and has a delimiter or an end of `s` on either side. */
  predicate IsWord(s: string, delims: set<char>, a: int, b: int) {
    && 0 <= a <= b <= |s|
    && (a == 0 || s[a - 1] in delims)
    && (b == |s| || s[b] in delims)
    && forall j :: a <= j < b ==> s[j] !in delims
  }

  /** `w` is the word of `s` that starts at `p`, character by character. */
  predicate PieceAt(s: string, delims: set<char>, p: int, w: string) {
    IsWord(s, delims, p, p + |w|) && forall x :: 0 <= x < |w| ==> s[p + x] == w[x]
  }

  /** `cur` is what `SplitScan` has read of the piece that ends at `j`. */
  predicate Current(s: string, delims: set<char>, j: nat, cur: string) {
    && |cur| <= j <= |s|
    && (j == |cur| || s[j - |cur| - 1] in delims)
    && forall x :: 0 <= x < |cur| ==> s[j - |cur| + x] == cur[x] && cur[x] !in delims
  }

  // ---------------------------------------------------------------------
  // Offsets

  lemma {:induction false} OffsetCons(w: string, ws: seq<string>, i: nat)
    requires 1 <= i <= |ws| + 1
    ensures Offset([w] + ws, i) == |w| + 1 + Offset(ws, i - 1)
  {
    if i > 1 {
      OffsetCons(w, ws, i - 1);
      assert ([w] + ws)[i - 1] == ws[i - 2];
    }
  }

  lemma {:induction false} OffsetPrefix(ws1: seq<string>, ws2: seq<string>, i: nat)
    requires i <= |ws1|
    ensures Offset(ws1 + ws2, i) == Offset(ws1, i)
  {
    if i > 0 {
      OffsetPrefix(ws1, ws2, i - 1);
      assert (ws1 + ws2)[i - 1] == ws1[i - 1];
    }
  }

  /** The offsets of the pieces after a prefix of pieces are shifted by the
      room the prefix takes. */
  lemma {:induction false} OffsetAppend(ws1: seq<string>, ws2: seq<string>, i: nat)
    requires i <= |ws2|
    ensures Offset(ws1 + ws2, |ws1| + i) == Offset(ws1, |ws1|) + Offset(ws2, i)
  {
    if i > 0 {
      OffsetAppend(ws1, ws2, i - 1);
      assert (ws1 + ws2)[|ws1| + i - 1] == ws2[i - 1];
    } else {
      OffsetPrefix(ws1, ws2, |ws1|);
    }
  }

  lemma {:induction false} OffsetIncreasing(ws: seq<string>, i: nat, j: nat)
    requires i < j <= |ws|
    ensures Offset(ws, i) + |ws[i]| < Offset(ws, j)
  {
    if i + 1 < j {
      OffsetIncreasing(ws, i, j - 1);
    }
  }

  // ---------------------------------------------------------------------
  // The pieces are the words of the string

  /** Piece `i` of the scan from `j` is the word of `s` that starts `Offset`
      characters after the start of the current piece. */
  lemma {:induction false} ScanPiece(s: string, delims: set<char>, j: nat, cur: string, i: nat)
    requires Current(s, delims, j, cur)
    requires i < |SplitScan(s, delims, j, cur)|
    ensures var ws := SplitScan(s, delims, j, cur);
            PieceAt(s, delims, j - |cur| + Offset(ws, i), ws[i])
    decreases |s| - j
  {
    if j == |s| || s[j] in delims {
      CurrentWord(s, delims, j, cur);
    }
    if j == |s| {
    } else if s[j] in delims {
      if i > 0 {
        var ws' := SplitScan(s, delims, j + 1, []);
        ScanPiece(s, delims, j + 1, [], i - 1);
        OffsetCons(cur, ws', i);
        assert ([cur] + ws')[i] == ws'[i - 1];
      }
    } else {
      CurrentExtend(s, delims, j, cur);
      ScanPiece(s, delims, j + 1, cur + [s[j]], i);
    }
  }

  /** The current piece holds no delimiter. */
  lemma {:induction false} CurrentNoDelim(s: string, delims: set<char>, j: nat, cur: string)
    requires Current(s, delims, j, cur)
    ensures forall k :: j - |cur| <= k < j ==> s[k] !in delims
  {
    forall k | j - |cur| <= k < j ensures s[k] !in delims {
      assert s[k] == cur[k - (j - |cur|)];
    }
  }

  /** The current piece is a word once a delimiter or the end closes it. */
  lemma {:induction false} CurrentWord(s: string, delims: set<char>, j: nat, cur: string)
    requires Current(s, delims, j, cur) && (j == |s| || s[j] in delims)
    ensures PieceAt(s, delims, j - |cur|, cur)
  {
    CurrentNoDelim(s, delims, j, cur);
  }

  /** No word starts inside the current piece. */
  lemma {:induction false} CurrentNoStart(s: string, delims: set<char>, j: nat, cur: string, p: int, q: int)
    requires Current(s, delims, j, cur) && IsWord(s, delims, p, q) && j - |cur| < p
    ensures j < p
  {
    CurrentNoDelim(s, delims, j, cur);
  }

  lemma {:induction false} CurrentExtend(s: string, delims: set<char>, j: nat, cur: string)
    requires Current(s, delims, j, cur) && j < |s| && s[j] !in delims
    ensures Current(s, delims, j + 1, cur + [s[j]])
  {
  }

  /** Word `i` of `Split(s, delims)` is the slice of `s` at `Offset(ws, i)`,
      and it is a word of `s`. */
  lemma {:induction false} SplitPiece(s: string, delims: set<char>, i: nat)
    requires i < |Split(s, delims)|
    ensures var ws := Split(s, delims);
            var p := Offset(ws, i);
            && IsWord(s, delims, p, p + |ws[i]|)
            && s[p..p + |ws[i]|] == ws[i]
  {
    var ws := Split(s, delims);
    ScanPiece(s, delims, 0, [], i);
    var p := Offset(ws, i);
    assert s[p..p + |ws[i]|] == ws[i];
  }

  /** Every word of `s` that starts at or after the start of the current piece
      is one of the pieces of the scan. */
  lemma {:induction false} ScanWordIndex(s: string, delims: set<char>, j: nat, cur: string, p: int, q: int)
      returns (i: nat)
    requires Current(s, delims, j, cur)
    requires j - |cur| <= p && IsWord(s, delims, p, q)
    ensures var ws := SplitScan(s, delims, j, cur);
            i < |ws| && j - |cur| + Offset(ws, i) == p && |ws[i]| == q - p
    decreases |s| - j
  {
    if p != j - |cur| {
      CurrentNoStart(s, delims, j, cur, p, q);
    }
    if p == j - |cur| {
      i := ScanWordHead(s, delims, j, cur, q);
    } else if s[j] in delims {
      var ws' := SplitScan(s, delims, j + 1, []);
      var i' := ScanWordIndex(s, delims, j + 1, [], p, q);
      OffsetCons(cur, ws', i' + 1);
      assert ([cur] + ws')[i' + 1] == ws'[i'];
      i := i' + 1;
    } else {
      CurrentExtend(s, delims, j, cur);
      i := ScanWordIndex(s, delims, j + 1, cur + [s[j]], p, q);
    }
  }

  /** The word that starts where the current piece starts is that piece. */
  lemma {:induction false} ScanWordHead(s: string, delims: set<char>, j: nat, cur: string, q: int)
      returns (i: nat)
    requires Current(s, delims, j, cur) && IsWord(s, delims, j - |cur|, q)
    ensures var ws := SplitScan(s, delims, j, cur);
            i == 0 && |ws[0]| == q - (j - |cur|)
    decreases |s| - j
  {
    i := 0;
    CurrentNoDelim(s, delims, j, cur);
    if j < |s| && s[j] !in delims {
      CurrentExtend(s, delims, j, cur);
      var _ := ScanWordHead(s, delims, j + 1, cur + [s[j]], q);
    }
  }

  /** No piece before the one `FirstWord` finds is accepted, and it finds
      none exactly when no piece is accepted. */
  lemma {:induction false} FirstWordFirst<T>(ws: seq<string>, parse: string -> Option<T>)
    ensures var r := FirstWord(ws, parse);
            && (r.Some? ==> forall j :: 0 <= j < r.value ==> parse(ws[j]).None?)
            && (r.None? <==> forall j :: 0 <= j < |ws| ==> parse(ws[j]).None?)
  {
    if |ws| > 0 && parse(ws[0]).None? {
      FirstWordFirst(ws[1..], parse);
      assert forall j :: 1 <= j < |ws| ==> ws[j] == ws[1..][j - 1];
    }
  }

  /** The search stops at the first accepted piece. */
  lemma {:induction false} FirstWordAt<T>(ws: seq<string>, parse: string -> Option<T>, i: nat)
    requires i < |ws| && parse(ws[i]).Some?
    requires forall j :: 0 <= j < i ==> parse(ws[j]).None?
    ensures FirstWord(ws, parse) == Some(i)
  {
    FirstWordFirst(ws, parse);
  }

  lemma {:induction false} FirstWordNoneAll<T>(ws: seq<string>, parse: string -> Option<T>)
    requires forall j :: 0 <= j < |ws| ==> parse(ws[j]).None?
    ensures FirstWord(ws, parse) == None
  {
    FirstWordFirst(ws, parse);
  }

  /** Every word of `s` is one of the pieces of `Split(s, delims)`. */
  lemma {:induction false} WordIndex(s: string, delims: set<char>, p: int, q: int) returns (i: nat)
    requires IsWord(s, delims, p, q)
    ensures var ws := Split(s, delims);
            i < |ws| && Offset(ws, i) == p && ws[i] == s[p..q]
  {
    i := ScanWordIndex(s, delims, 0, [], p, q);
    SplitPiece(s, delims, i);
  }

  /** The pieces and their separating delimiters use up the rest of the
      string. */
  lemma {:induction false} ScanLength(s: string, delims: set<char>, j: nat, cur: string)
    requires |cur| <= j <= |s|
    ensures var ws := SplitScan(s, delims, j, cur); j - |cur| + Offset(ws, |ws|) == |s| + 1
    decreases |s| - j
  {
    if j < |s| {
      if s[j] in delims {
        var ws' := SplitScan(s, delims, j + 1, []);
        ScanLength(s, delims, j + 1, []);
        OffsetCons(cur, ws', |ws'| + 1);
      } else {
        ScanLength(s, delims, j + 1, cur + [s[j]]);
      }
    }
  }

  /** The words and their separating delimiters use up the whole string. */
  lemma {:induction false} SplitLength(s: string, delims: set<char>)
    ensures var ws := Split(s, delims); Offset(ws, |ws|) == |s| + 1
  {
    ScanLength(s, delims, 0, []);
  }

  // ---------------------------------------------------------------------
  // The first piece a parser accepts, read on the string itself

  /** The search fails exactly when no word of `s` parses. */
  lemma {:induction false} FindWordNone<T>(s: string, delims: set<char>, parse: string -> Option<T>)
    ensures FindWord(s, delims, parse).None? <==>
              forall a, b {:trigger IsWord(s, delims, a, b)} :: IsWord(s, delims, a, b) ==> parse(s[a..b]).None?
  {
    var ws := Split(s, delims);
    var r := FirstWord(ws, parse);
    FirstWordFirst(ws, parse);
    if r.None? {
      forall a, b | IsWord(s, delims, a, b) ensures parse(s[a..b]).None? {
        var i := WordIndex(s, delims, a, b);
      }
    } else {
      SplitPiece(s, delims, r.value);
    }
  }

  /** When the search succeeds, it finds a word of `s` that parses, at the
      range it reports, and no word of `s` that starts earlier parses. */
  lemma {:induction false} FindWordSome<T>(s: string, delims: set<char>, parse: string -> Option<T>)
    requires FindWord(s, delims, parse).Some?
    ensures var f := FindWord(s, delims, parse).value;
            && 0 <= f.start <= f.end <= |s|
            && IsWord(s, delims, f.start, f.end)
            && parse(s[f.start..f.end]) == Some(f.value)
            && forall a, b {:trigger IsWord(s, delims, a, b)} :: IsWord(s, delims, a, b) && a < f.start ==> parse(s[a..b]).None?
  {
    var ws := Split(s, delims);
    FirstWordFirst(ws, parse);
    var i := FirstWord(ws, parse).value;
    SplitPiece(s, delims, i);
    forall a', b' | IsWord(s, delims, a', b') && a' < Offset(ws, i)
      ensures parse(s[a'..b']).None?
    {
      var j := WordIndex(s, delims, a', b');
      if i < j {
        OffsetIncreasing(ws, i, j);
      }
    }
  }

  /** The search stops at the first piece that parses. */
  lemma {:induction false} FindWordAt<T>(s: string, delims: set<char>, parse: string -> Option<T>, i: nat)
    requires var ws := Split(s, delims);
             i < |ws| && parse(ws[i]).Some? && forall j :: 0 <= j < i ==> parse(ws[j]).None?
    ensures var ws := Split(s, delims);
            FindWord(s, delims, parse) == Some(Found(parse(ws[i]).value, Offset(ws, i), Offset(ws, i) + |ws[i]|))
  {
    FirstWordAt(Split(s, delims), parse, i);
  }

  /** The search fails when no piece parses. */
  lemma {:induction false} FindWordNoneAt<T>(s: string, delims: set<char>, parse: string -> Option<T>)
    requires var ws := Split(s, delims); forall j :: 0 <= j < |ws| ==> parse(ws[j]).None?
    ensures FindWord(s, delims, parse) == None
  {
    FirstWordNoneAll(Split(s, delims), parse);
  }

  /** A leading word the parser rejects is skipped: the search goes on in
      the rest, whose offsets move by the word and its delimiter. */
  lemma {:induction false} FindWordSkip<T>(v: string, d: char, t: string, delims: set<char>, parse: string -> Option<T>)
    requires NoDelim(v, delims) && d in delims && parse(v).None?
    ensures FindWord(v + [d] + t, delims, parse) == Shifted(FindWord(t, delims, parse), |v| + 1)
  {
    SplitConcat(v, d, t, delims);
    var ws, wt := Split(v + [d] + t, delims), Split(t, delims);
    assert ws[1..] == wt;
    match FirstWord(wt, parse)
    case None =>
    case Some(i) =>
      assert FirstWord(ws, parse) == Some(i + 1);
      OffsetCons(v, wt, i + 1);
  }

  /** `k` spaces. */
  function Spaces(k: nat): (s: string)
    ensures |s| == k && forall j :: 0 <= j < k ==> s[j] == ' '
  {
    if k == 0 then [] else [' '] + Spaces(k - 1)
  }

  /** Leading spaces are empty words; when the parser rejects the empty
      word, the search finds in the rest what it finds after them, `k`
      characters further on. */
  lemma {:induction false} FindWordAfterSpaces<T>(k: nat, t: string, parse: string -> Option<T>)
    requires parse([]).None?
    ensures FindWord(Spaces(k) + t, WordDelims, parse) == Shifted(FindWord(t, WordDelims, parse), k)
  {
    if k > 0 {
      var u := Spaces(k - 1) + t;
      assert Spaces(k) + t == [] + [' '] + u;
      FindWordAfterSpaces(k - 1, t, parse);
      FindWordSkip([], ' ', u, WordDelims, parse);
      ShiftedTwice(FindWord(t, WordDelims, parse), k - 1, 1);
    } else {
      assert Spaces(k) + t == t;
    }
  }

  /** A leading word the parser accepts is what the search finds. */
  lemma {:induction false} FindWordHead<T>(w: string, rest: string, delims: set<char>, parse: string -> Option<T>)
    requires NoDelim(w, delims) && (rest == [] || rest[0] in delims) && parse(w).Some?
    ensures FindWord(w + rest, delims, parse) == Some(Found(parse(w).value, 0, |w|))
  {
    SplitHead(w, rest, delims);
  }

  // ---------------------------------------------------------------------
  // Splitting concatenations

  /** The scan does not depend on what comes before its position. */
  lemma {:induction false} ScanShift(p: string, t: string, delims: set<char>, j: nat, cur: string)
    requires j <= |t|
    ensures SplitScan(p + t, delims, |p| + j, cur) == SplitScan(t, delims, j, cur)
    decreases |t| - j
  {
    if j < |t| {
      assert (p + t)[|p| + j] == t[j];
      if t[j] in delims {
        ScanShift(p, t, delims, j + 1, []);
      } else {
        ScanShift(p, t, delims, j + 1, cur + [t[j]]);
      }
    }
  }

  /** A run without delimiters extends the current piece. */
  lemma {:induction false} ScanNoDelim(a: string, delims: set<char>, j: nat, cur: string)
    requires j <= |a| && NoDelim(a, delims)
    ensures SplitScan(a, delims, j, cur) == [cur + a[j..]]
    decreases |a| - j
  {
    if j < |a| {
      ScanNoDelim(a, delims, j + 1, cur + [a[j]]);
      assert cur + [a[j]] + a[j + 1..] == cur + a[j..];
    } else {
      assert cur + a[j..] == cur;
    }
  }

  lemma {:induction false} SplitNoDelim(a: string, delims: set<char>)
    requires NoDelim(a, delims)
    ensures Split(a, delims) == [a]
  {
    ScanNoDelim(a, delims, 0, []);
    assert [] + a[0..] == a;
  }

  /** Splitting at a delimiter splits the two sides independently. */
  lemma {:induction false} ScanAppend(a: string, d: char, b: string, delims: set<char>, j: nat, cur: string)
    requires d in delims && j <= |a|
    ensures SplitScan(a + [d] + b, delims, j, cur) == SplitScan(a, delims, j, cur) + Split(b, delims)
    decreases |a| - j
  {
    var s := a + [d] + b;
    if j == |a| {
      assert s[j] == d;
      ScanShift(a + [d], b, delims, 0, []);
    } else {
      assert s[j] == a[j];
      if a[j] in delims {
        ScanAppend(a, d, b, delims, j + 1, []);
        var ws1, ws2 := SplitScan(a, delims, j + 1, []), Split(b, delims);
        assert [cur] + (ws1 + ws2) == [cur] + ws1 + ws2;
      } else {
        ScanAppend(a, d, b, delims, j + 1, cur + [a[j]]);
      }
    }
  }

  lemma {:induction false} SplitAppend(a: string, d: char, b: string, delims: set<char>)
    requires d in delims
    ensures Split(a + [d] + b, delims) == Split(a, delims) + Split(b, delims)
  {
    ScanAppend(a, d, b, delims, 0, []);
  }

  /** A piece without delimiters, a delimiter, and the pieces of the rest. */
  lemma {:induction false} SplitConcat(a: string, d: char, b: string, delims: set<char>)
    requires NoDelim(a, delims) && d in delims
    ensures Split(a + [d] + b, delims) == [a] + Split(b, delims)
  {
    SplitAppend(a, d, b, delims);
    SplitNoDelim(a, delims);
  }

  /** The first piece runs up to the first delimiter, and the rest is split
      independently. */
  lemma {:induction false} SplitHead(a: string, t: string, delims: set<char>)
    requires NoDelim(a, delims) && (t == [] || t[0] in delims)
    ensures Split(a + t, delims)[0] == a
    ensures t != [] ==> Split(a + t, delims) == [a] + Split(t[1..], delims)
  {
    if t == [] {
      assert a + t == a;
      SplitNoDelim(a, delims);
    } else {
      assert a + t == a + [t[0]] + t[1..];
      SplitConcat(a, t[0], t[1..], delims);
    }
  }

  /** The first piece is empty exactly when the string is empty or starts
      with a delimiter. */
  lemma {:induction false} SplitHeadEmpty(s: string, delims: set<char>)
    ensures Split(s, delims)[0] == [] <==> s == [] || s[0] in delims
  {
    if s == [] || s[0] in delims {
      assert [] + s == s;
      SplitHead([], s, delims);
    } else {
      SplitPiece(s, delims, 0);
    }
  }

  /** The pieces of a string made of two delimiter-free fields, a
      delimiter between them, and a rest that is empty or starts with a
      delimiter. */
  lemma {:induction false} SplitTwo(a: string, b: string, rest: string, delims: set<char>, d: char)
    requires NoDelim(a, delims) && NoDelim(b, delims) && d in delims
    requires rest == [] || rest[0] in delims
    ensures var segs := Split(a + [d] + b + rest, delims);
            && |segs| >= 2 && segs[0] == a && segs[1] == b
            && (rest == [] ==> |segs| == 2)
            && (rest != [] ==> segs[2..] == Split(rest[1..], delims))
  {
    assert a + [d] + b + rest == a + ([d] + (b + rest));
    SplitHead(a, [d] + (b + rest), delims);
    assert ([d] + (b + rest))[1..] == b + rest;
    SplitHead(b, rest, delims);
    if rest == [] {
      assert b + rest == b;
      SplitNoDelim(b, delims);
    }
  }

  lemma {:induction false} ScanNShift(p: string, t: string, delims: set<char>, j: nat, cur: string, n: nat)
    requires j <= |t| && n >= 1
    ensures SplitNScan(p + t, delims, |p| + j, cur, n) == SplitNScan(t, delims, j, cur, n)
    decreases |t| - j
  {
    if n == 1 {
      assert (p + t)[|p| + j..] == t[j..];
    } else if j < |t| {
      assert (p + t)[|p| + j] == t[j];
      if t[j] in delims {
        ScanNShift(p, t, delims, j + 1, [], n - 1);
      } else {
        ScanNShift(p, t, delims, j + 1, cur + [t[j]], n);
      }
    }
  }

  /** A piece without delimiters, followed by a delimiter, is the first of
      `splitn`'s pieces, and the rest is split into at most `n - 1`. */
  lemma {:induction false} ScanNConcat(a: string, d: char, b: string, delims: set<char>, n: nat, j: nat, cur: string)
    requires NoDelim(a, delims) && d in delims && n >= 2 && j <= |a|
    ensures SplitNScan(a + [d] + b, delims, j, cur, n) == [cur + a[j..]] + SplitN(b, delims, n - 1)
    decreases |a| - j
  {
    var s := a + [d] + b;
    if j == |a| {
      assert s[j] == d;
      ScanNShift(a + [d], b, delims, 0, [], n - 1);
      assert cur + a[j..] == cur;
    } else {
      assert s[j] == a[j];
      ScanNConcat(a, d, b, delims, n, j + 1, cur + [a[j]]);
      assert cur + [a[j]] + a[j + 1..] == cur + a[j..];
    }
  }

  lemma {:induction false} SplitNConcat(a: string, d: char, b: string, delims: set<char>, n: nat)
    requires NoDelim(a, delims) && d in delims && n >= 2
    ensures SplitN(a + [d] + b, delims, n) == [a] + SplitN(b, delims, n - 1)
  {
    ScanNConcat(a, d, b, delims, n, 0, []);
    assert [] + a[0..] == a;
  }

  lemma {:induction false} ScanNNoDelim(a: string, delims: set<char>, n: nat, j: nat, cur: string)
    requires NoDelim(a, delims) && n >= 1 && j <= |a|
    ensures SplitNScan(a, delims, j, cur, n) == [cur + a[j..]]
    decreases |a| - j
  {
    if n > 1 && j < |a| {
      ScanNNoDelim(a, delims, n, j + 1, cur + [a[j]]);
      assert cur + [a[j]] + a[j + 1..] == cur + a[j..];
    } else if n > 1 {
      assert cur + a[j..] == cur;
    }
  }

  lemma {:induction false} SplitNNoDelim(a: string, delims: set<char>, n: nat)
    requires n >= 1 && NoDelim(a, delims)
    ensures SplitN(a, delims, n) == [a]
  {
    ScanNNoDelim(a, delims, n, 0, []);
    assert [] + a[0..] == a;
  }
}
