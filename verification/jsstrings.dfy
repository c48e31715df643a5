/**
 * The few JavaScript string operations the Arc component relies on:
 * `indexOf`, `includes`, `split` with a non-empty separator, indexing an
 * array that may be too short, and removing every quote character.
 */
module JsStrings {
  import opened Wrappers

  /** True when `pat` occurs in `s` starting at index `i`. */
  predicate OccursAt(s: string, pat: string, i: int) {
    0 <= i && i + |pat| <= |s| && s[i..i + |pat|] == pat
  }

  /** `s.includes(pat)`. */
  predicate Includes(s: string, pat: string) {
    exists i | 0 <= i <= |s| - |pat| :: OccursAt(s, pat, i)
  }

  /**
   * `s.indexOf(pat, from)`, with `None` for -1. Its contract only bounds the
   * position; `IndexOfSpec` states what the position means.
   */
  function IndexOf(s: string, pat: string, from: nat): (r: Option<nat>)
    requires |pat| > 0
    ensures r.Some? ==> from <= r.value && r.value + |pat| <= |s|
    decreases |s| - from
  {
    if from + |pat| > |s| then None
    else if OccursAt(s, pat, from) then Some(from)
    else IndexOf(s, pat, from + 1)
  }

  /**
   * `indexOf` reports an occurrence, and there is no occurrence between
   * `from` and it; when it reports none, there is none from `from` on.
   */
  lemma {:induction false} IndexOfSpec(s: string, pat: string, from: nat)
    requires |pat| > 0
    ensures IndexOf(s, pat, from).Some? ==> OccursAt(s, pat, IndexOf(s, pat, from).value)
    ensures forall j :: from <= j && (IndexOf(s, pat, from).None? || j < IndexOf(s, pat, from).value) ==>
      !OccursAt(s, pat, j)
    decreases |s| - from
  {
    if from + |pat| <= |s| && !OccursAt(s, pat, from) {
      IndexOfSpec(s, pat, from + 1);
    }
  }

  /** A one-character pattern occurs exactly where that character stands. */
  lemma OccursAtChar(s: string, c: char, q: int)
    ensures OccursAt(s, [c], q) <==> 0 <= q < |s| && s[q] == c
  {
    if 0 <= q < |s| {
      assert s[q..q + 1] == [s[q]];
    }
  }

  /** One mismatching character rules an occurrence out. */
  lemma NotOccursAt(s: string, pat: string, q: nat, k: nat)
    requires k < |pat| && q + k < |s| && s[q + k] != pat[k]
    ensures !OccursAt(s, pat, q)
  {
    if q + |pat| <= |s| {
      assert s[q..q + |pat|][k] == s[q + k];
    }
  }

  /** `indexOf` is pinned down by an occurrence with none before it. */
  lemma {:induction false} IndexOfIs(s: string, pat: string, from: nat, i: nat)
    requires |pat| > 0 && from <= i && OccursAt(s, pat, i)
    requires forall j :: from <= j < i ==> !OccursAt(s, pat, j)
    ensures IndexOf(s, pat, from) == Some(i)
    decreases i - from
  {
    if from < i {
      IndexOfIs(s, pat, from + 1, i);
    }
  }

  /** `indexOf` finds nothing when there is no occurrence from `from` on. */
  lemma {:induction false} IndexOfNone(s: string, pat: string, from: nat)
    requires |pat| > 0
    requires forall j :: from <= j ==> !OccursAt(s, pat, j)
    ensures IndexOf(s, pat, from).None?
    decreases |s| - from
  {
    if from + |pat| <= |s| {
      IndexOfNone(s, pat, from + 1);
    }
  }

  /** `indexOf` of one character is the first place it stands from `from` on. */
  lemma IndexOfCharIs(s: string, c: char, from: nat, i: nat)
    requires from <= i < |s| && s[i] == c
    requires forall q :: from <= q < i ==> s[q] != c
    ensures IndexOf(s, [c], from) == Some(i)
  {
    OccursAtChar(s, c, i);
    forall q | from <= q < i ensures !OccursAt(s, [c], q) {
      OccursAtChar(s, c, q);
    }
    IndexOfIs(s, [c], from, i);
  }

  /** `indexOf` of one character finds nothing when it does not stand anywhere from `from` on. */
  lemma IndexOfCharNone(s: string, c: char, from: nat)
    requires forall q :: from <= q < |s| ==> s[q] != c
    ensures IndexOf(s, [c], from).None?
  {
    forall q | from <= q ensures !OccursAt(s, [c], q) {
      OccursAtChar(s, c, q);
    }
    IndexOfNone(s, [c], from);
  }

  /** An occurrence inside a slice of `s` is an occurrence in `s`, shifted. */
  lemma OccursInSlice(s: string, pat: string, lo: nat, hi: nat, q: int)
    requires lo <= hi <= |s|
    requires OccursAt(s[lo..hi], pat, q)
    ensures OccursAt(s, pat, lo + q) && lo + q + |pat| <= hi
  {
    var w := s[lo..hi];
    forall k | q <= k < q + |pat| ensures w[k] == s[lo + k] { }
    assert w[q..q + |pat|] == s[lo + q..lo + q + |pat|];
  }

  /** The pieces of `s[from..]` between the occurrences of `sep`, found left to right. */
  function SplitFrom(s: string, sep: string, from: nat): (parts: seq<string>)
    requires |sep| > 0 && from <= |s|
    ensures |parts| >= 1
    decreases |s| - from
  {
    match IndexOf(s, sep, from)
    case None => [s[from..|s|]]
    case Some(i) => [s[from..i]] + SplitFrom(s, sep, i + |sep|)
  }

  /** `s.split(sep)` for a non-empty separator: never empty. */
  function Split(s: string, sep: string): (parts: seq<string>)
    requires |sep| > 0
    ensures |parts| >= 1
  {
    SplitFrom(s, sep, 0)
  }

  /** No piece of a split contains the separator. */
  lemma {:induction false} SplitPiecesFree(s: string, sep: string, from: nat)
    requires |sep| > 0 && from <= |s|
    ensures forall k :: 0 <= k < |SplitFrom(s, sep, from)| ==> !Includes(SplitFrom(s, sep, from)[k], sep)
    decreases |s| - from
  {
    var parts := SplitFrom(s, sep, from);
    IndexOfSpec(s, sep, from);
    match IndexOf(s, sep, from)
    case None =>
      var last := s[from..|s|];
      assert parts == [last];
      forall q | 0 <= q <= |last| - |sep| ensures !OccursAt(last, sep, q) {
        if OccursAt(last, sep, q) {
          OccursInSlice(s, sep, from, |s|, q);
        }
      }
    case Some(i) =>
      var piece := s[from..i];
      var rest := SplitFrom(s, sep, i + |sep|);
      assert parts == [piece] + rest;
      forall q | 0 <= q <= |piece| - |sep| ensures !OccursAt(piece, sep, q) {
        if OccursAt(piece, sep, q) {
          OccursInSlice(s, sep, from, i, q);
        }
      }
      SplitPiecesFree(s, sep, i + |sep|);
      forall k | 0 <= k < |parts| ensures !Includes(parts[k], sep) {
        if k > 0 {
          assert parts[k] == rest[k - 1];
        }
      }
  }

  /** `parts.join(sep)`, the inverse of `Split`. */
  function Join(parts: seq<string>, sep: string): string {
    if |parts| == 0 then ""
    else if |parts| == 1 then parts[0]
    else parts[0] + sep + Join(parts[1..], sep)
  }

  /** `arr[k]` in JavaScript: `undefined` past the end. */
  function Nth<T>(arr: seq<T>, k: nat): (r: Option<T>)
    ensures r.Some? <==> k < |arr|
    ensures r.Some? ==> r.value == arr[k]
  {
    if k < |arr| then Some(arr[k]) else None
  }

  lemma {:induction false} JoinSplitFrom(s: string, sep: string, from: nat)
    requires |sep| > 0 && from <= |s|
    ensures Join(SplitFrom(s, sep, from), sep) == s[from..]
    decreases |s| - from
  {
    match IndexOf(s, sep, from)
    case None =>
      assert SplitFrom(s, sep, from) == [s[from..|s|]];
    case Some(i) =>
      var mid := i + |sep|;
      var rest := SplitFrom(s, sep, mid);
      assert SplitFrom(s, sep, from) == [s[from..i]] + rest;
      assert Join([s[from..i]] + rest, sep) == s[from..i] + sep + s[mid..] by {
        JoinSplitFrom(s, sep, mid);
        JoinCons(s[from..i], rest, sep);
      }
      assert s[from..] == s[from..i] + sep + s[mid..] by {
        IndexOfSpec(s, sep, from);
        assert s[i..mid] == sep;
        SliceThree(s, from, i, mid);
      }
  }

  /** Joining a piece in front of at least one more piece puts a separator between. */
  lemma JoinCons(a: string, rest: seq<string>, sep: string)
    requires |rest| >= 1
    ensures Join([a] + rest, sep) == a + sep + Join(rest, sep)
  {
    assert ([a] + rest)[1..] == rest;
  }

  /** A slice is the concatenation of its three consecutive sub-slices. */
  lemma SliceThree(s: string, a: nat, b: nat, c: nat)
    requires a <= b <= c <= |s|
    ensures s[a..] == s[a..b] + s[b..c] + s[c..]
  {
  }

  /** Splitting and joining again gives back the original string. */
  lemma SplitJoinRoundTrip(s: string, sep: string)
    requires |sep| > 0
    ensures Join(Split(s, sep), sep) == s
  {
    JoinSplitFrom(s, sep, 0);
  }

  /**
   * Joining pieces free of a one-character separator and splitting again
   * gives back the pieces.
   */
  lemma SplitJoinChar(parts: seq<string>, c: char)
    requires |parts| >= 1 && forall k :: 0 <= k < |parts| ==> c !in parts[k]
    ensures Split(Join(parts, [c]), [c]) == parts
  {
    var s := Join(parts, [c]);
    assert s[0..] == s;
    SplitFromJoin(s, c, 0, parts);
  }

  /** Where `first`, `c` and `rest` stand when `s` reads `first + [c] + rest` from `from` on. */
  lemma SliceAround(s: string, from: nat, first: string, c: char, rest: string)
    requires from <= |s| && s[from..] == first + [c] + rest
    ensures from + |first| < |s| && s[from..from + |first|] == first && s[from + |first|] == c
    ensures s[from + |first| + 1..] == rest
  {
    var i := from + |first|;
    assert s[from..][|first|] == c;
    assert s[from..i] == s[from..][..|first|];
    assert s[i + 1..] == s[from..][|first| + 1..];
  }

  /** Splitting the text `Join(parts, [c])` found at `from` on the character `c` gives `parts` back. */
  lemma {:induction false} SplitFromJoin(s: string, c: char, from: nat, parts: seq<string>)
    requires from <= |s| && s[from..] == Join(parts, [c])
    requires |parts| >= 1 && forall k :: 0 <= k < |parts| ==> c !in parts[k]
    ensures SplitFrom(s, [c], from) == parts
    decreases |parts|
  {
    if |parts| == 1 {
      SplitFromLastPiece(s, c, from);
    } else {
      var first, rest := parts[0], Join(parts[1..], [c]);
      var i := from + |first|;
      assert s[from..] == first + [c] + rest;
      assert IndexOf(s, [c], from) == Some(i) && s[i + 1..] == rest by {
        SplitFromNextPiece(s, c, from, first, rest);
      }
      SplitFromJoin(s, c, i + 1, parts[1..]);
      var pieces := SplitFrom(s, [c], from);
      SplitFromTailChar(s, c, from, i);
      assert pieces[0] == first by {
        SplitFromHead(s, [c], from, i);
        SliceAround(s, from, first, c, rest);
      }
      assert pieces == [pieces[0]] + pieces[1..];
    }
  }

  /** With no `c` left from `from` on, the split from there is the rest of the text. */
  lemma SplitFromLastPiece(s: string, c: char, from: nat)
    requires from <= |s| && c !in s[from..]
    ensures SplitFrom(s, [c], from) == [s[from..]]
  {
    forall q | from <= q < |s| ensures s[q] != c {
      assert s[q] == s[from..][q - from];
    }
    IndexOfCharNone(s, c, from);
    assert s[from..|s|] == s[from..];
  }

  /** A first piece free of `c`, then `c`: the next `c` from `from` ends that piece. */
  lemma SplitFromNextPiece(s: string, c: char, from: nat, first: string, rest: string)
    requires from <= |s| && s[from..] == first + [c] + rest && c !in first
    ensures IndexOf(s, [c], from) == Some(from + |first|)
    ensures s[from + |first| + 1..] == rest
  {
    var i := from + |first|;
    SliceAround(s, from, first, c, rest);
    forall q | from <= q < i ensures s[q] != c {
      assert s[q] == s[from..i][q - from];
    }
    IndexOfCharIs(s, c, from, i);
  }

  /** `split(sep)[0]` is the text before the first `sep`, or all of `s`. */
  lemma SplitFirstPiece(s: string, sep: string)
    requires |sep| > 0
    ensures IndexOf(s, sep, 0).None? ==> Split(s, sep) == [s]
    ensures IndexOf(s, sep, 0).Some? ==> Split(s, sep)[0] == s[..IndexOf(s, sep, 0).value]
  {
    assert Split(s, sep) == SplitFrom(s, sep, 0);
    match IndexOf(s, sep, 0)
    case None =>
      assert SplitFrom(s, sep, 0) == [s[0..|s|]];
      assert s[0..|s|] == s;
    case Some(i) =>
      assert SplitFrom(s, sep, 0)[0] == s[0..i];
  }

  /** `split(sep)[0]` of a slice that contains the first occurrence after its start. */
  lemma SplitFirstOfSlice(s: string, sep: string, lo: nat, hi: nat, j: nat)
    requires |sep| > 0 && lo <= j && j + |sep| <= hi <= |s|
    requires IndexOf(s, sep, lo) == Some(j)
    ensures Split(s[lo..hi], sep)[0] == s[lo..j]
  {
    var w := s[lo..hi];
    IndexOfSpec(s, sep, lo);
    IndexOfInSlice(s, sep, lo, hi, j);
    SplitFirstPiece(w, sep);
    assert w[..j - lo] == s[lo..j];
  }

  /** A slice with no occurrence of `sep` in it splits into just itself. */
  lemma SplitOfSliceWithout(s: string, sep: string, lo: nat, hi: nat)
    requires |sep| > 0 && lo <= hi <= |s|
    requires forall q :: lo <= q && q + |sep| <= hi ==> !OccursAt(s, sep, q)
    ensures Split(s[lo..hi], sep) == [s[lo..hi]]
  {
    var w := s[lo..hi];
    forall q | 0 <= q ensures !OccursAt(w, sep, q) {
      if OccursAt(w, sep, q) {
        OccursInSlice(s, sep, lo, hi, q);
      }
    }
    IndexOfNone(w, sep, 0);
    SplitFirstPiece(w, sep);
  }

  /** The first occurrence from `lo` is, shifted, the first occurrence in a slice starting at `lo`. */
  lemma IndexOfInSlice(s: string, sep: string, lo: nat, hi: nat, j: nat)
    requires |sep| > 0 && lo <= j && j + |sep| <= hi <= |s|
    requires OccursAt(s, sep, j) && forall q :: lo <= q < j ==> !OccursAt(s, sep, q)
    ensures IndexOf(s[lo..hi], sep, 0) == Some(j - lo)
  {
    var w := s[lo..hi];
    assert OccursAt(w, sep, j - lo) by {
      OccursInSliceBack(s, sep, lo, hi, j);
    }
    assert forall q :: 0 <= q < j - lo ==> !OccursAt(w, sep, q) by {
      NoEarlierInSlice(s, sep, lo, hi, j);
    }
    IndexOfIs(w, sep, 0, j - lo);
  }

  /** Before the first occurrence from `lo`, a slice starting at `lo` has none either. */
  lemma NoEarlierInSlice(s: string, sep: string, lo: nat, hi: nat, j: nat)
    requires |sep| > 0 && lo <= j <= hi <= |s|
    requires forall q :: lo <= q < j ==> !OccursAt(s, sep, q)
    ensures forall q :: 0 <= q < j - lo ==> !OccursAt(s[lo..hi], sep, q)
  {
    forall q | 0 <= q < j - lo ensures !OccursAt(s[lo..hi], sep, q) {
      if OccursAt(s[lo..hi], sep, q) {
        OccursInSlice(s, sep, lo, hi, q);
      }
    }
  }

  /** An occurrence in `s` that lies inside a slice is an occurrence in that slice. */
  lemma OccursInSliceBack(s: string, pat: string, lo: nat, hi: nat, i: nat)
    requires lo <= i && i + |pat| <= hi <= |s| && OccursAt(s, pat, i)
    ensures OccursAt(s[lo..hi], pat, i - lo)
  {
    var w := s[lo..hi];
    forall k | i - lo <= k < i - lo + |pat| ensures w[k] == s[lo + k] { }
    assert w[i - lo..i - lo + |pat|] == s[i..i + |pat|];
  }

  /**
   * `split(sep)[1]` exists exactly when `sep` occurs, and is then the text
   * between the first occurrence and the next one (or the end).
   */
  lemma SplitSecondPiece(s: string, sep: string)
    requires |sep| > 0
    ensures Nth(Split(s, sep), 1).Some? <==> IndexOf(s, sep, 0).Some?
    ensures IndexOf(s, sep, 0).Some? ==>
      var st := IndexOf(s, sep, 0).value + |sep|;
      Nth(Split(s, sep), 1) == Some(
        match IndexOf(s, sep, st)
        case None => s[st..]
        case Some(j) => s[st..j])
  {
    match IndexOf(s, sep, 0)
    case None =>
    case Some(i) =>
      var st := i + |sep|;
      assert Split(s, sep) == [s[..i]] + SplitFrom(s, sep, st);
      match IndexOf(s, sep, st)
      case None =>
        assert s[st..] == s[st..|s|];
      case Some(j) =>
  }

  /** `split(sep)[1]` when `sep` occurs at `i` and next at `j`. */
  lemma SplitSecondPieceIs(s: string, sep: string, i: nat, j: nat)
    requires |sep| > 0
    requires IndexOf(s, sep, 0) == Some(i) && IndexOf(s, sep, i + |sep|) == Some(j)
    ensures |Split(s, sep)| >= 2 && Split(s, sep)[1] == s[i + |sep|..j]
  {
    var st := i + |sep|;
    var rest := SplitFrom(s, sep, st);
    assert |Split(s, sep)| >= 2 && Split(s, sep)[1] == rest[0] by {
      SplitFromTail(s, sep, 0, i);
      assert Split(s, sep)[1] == Split(s, sep)[1..][0];
    }
    assert rest[0] == s[st..j] by {
      SplitFromHead(s, sep, st, j);
    }
  }

  /** The piece of a split that ends at the next occurrence, `j`, of `sep`. */
  lemma SplitFromHead(s: string, sep: string, from: nat, j: nat)
    requires |sep| > 0 && from <= |s| && IndexOf(s, sep, from) == Some(j)
    ensures |SplitFrom(s, sep, from)| >= 2 && SplitFrom(s, sep, from)[0] == s[from..j]
  {
    assert SplitFrom(s, sep, from) == [s[from..j]] + SplitFrom(s, sep, j + |sep|);
  }

  /** After the occurrence at `j`, the split goes on from just past it. */
  lemma SplitFromTail(s: string, sep: string, from: nat, j: nat)
    requires |sep| > 0 && from <= |s| && IndexOf(s, sep, from) == Some(j)
    ensures |SplitFrom(s, sep, from)| >= 2 && SplitFrom(s, sep, from)[1..] == SplitFrom(s, sep, j + |sep|)
  {
    var rest := SplitFrom(s, sep, j + |sep|);
    assert SplitFrom(s, sep, from) == [s[from..j]] + rest;
    assert ([s[from..j]] + rest)[1..] == rest;
  }

  /** `SplitFromTail` for a one-character separator. */
  lemma SplitFromTailChar(s: string, c: char, from: nat, j: nat)
    requires from <= |s| && IndexOf(s, [c], from) == Some(j)
    ensures |SplitFrom(s, [c], from)| >= 2 && SplitFrom(s, [c], from)[1..] == SplitFrom(s, [c], j + 1)
  {
    SplitFromTail(s, [c], from, j);
  }

  /** `split(sep)[1]` when `sep` occurs at `i` and not again. */
  lemma SplitSecondPieceLast(s: string, sep: string, i: nat)
    requires |sep| > 0
    requires IndexOf(s, sep, 0) == Some(i) && IndexOf(s, sep, i + |sep|).None?
    ensures |Split(s, sep)| >= 2 && Split(s, sep)[1] == s[i + |sep|..]
  {
    var st := i + |sep|;
    assert Split(s, sep) == SplitFrom(s, sep, 0);
    assert SplitFrom(s, sep, 0) == [s[0..i]] + SplitFrom(s, sep, st);
    assert SplitFrom(s, sep, st) == [s[st..|s|]];
  }

  /**
   * `s.split(key)[1].split(stop)[0]` located in `s`: it starts after the
   * first `key` and ends at the first `stop` before the next `key`, or at
   * that next `key` (or the end of `s`) when no `stop` comes first.
   */
  lemma SplitThenFirst(s: string, key: string, stop: string, i: nat)
    requires |key| > 0 && |stop| > 0 && IndexOf(s, key, 0) == Some(i)
    ensures |Split(s, key)| >= 2
    ensures var st := i + |key|;
      var end := match IndexOf(s, key, st) case None => |s| case Some(e) => e;
      var cut := match IndexOf(s, stop, st) case Some(j) => (if j + |stop| <= end then j else end) case None => end;
      Split(Split(s, key)[1], stop)[0] == s[st..cut]
  {
    var st := i + |key|;
    var end := match IndexOf(s, key, st) case None => |s| case Some(e) => e;
    assert |Split(s, key)| >= 2 && Split(s, key)[1] == s[st..end] by {
      match IndexOf(s, key, st)
      case None => SplitSecondPieceLast(s, key, i);
      case Some(e) => SplitSecondPieceIs(s, key, i, e);
    }
    IndexOfSpec(s, stop, st);
    match IndexOf(s, stop, st)
    case Some(j) =>
      if j + |stop| <= end {
        SplitFirstOfSlice(s, stop, st, end, j);
      } else {
        SplitOfSliceWithout(s, stop, st, end);
      }
    case None =>
      SplitOfSliceWithout(s, stop, st, end);
  }

  /** A quote character, as removed by `replace(/['"]+/g, "")`. */
  predicate IsQuote(c: char) {
    c == '\'' || c == '"'
  }

  /** `s.replace(/['"]+/g, "")`: every quote character deleted. */
  function RemoveQuotes(s: string): (r: string)
    ensures forall k :: 0 <= k < |r| ==> !IsQuote(r[k])
    ensures forall c :: !IsQuote(c) ==> multiset(r)[c] == multiset(s)[c]
    ensures |r| <= |s|
  {
    if |s| == 0 then ""
    else
      var rest := RemoveQuotes(s[1..]);
      assert s == [s[0]] + s[1..];
      if IsQuote(s[0]) then rest else [s[0]] + rest
  }

  lemma {:induction false} RemoveQuotesNoQuotes(s: string)
    requires forall k :: 0 <= k < |s| ==> !IsQuote(s[k])
    ensures RemoveQuotes(s) == s
  {
    if |s| > 0 {
      RemoveQuotesNoQuotes(s[1..]);
    }
  }

  lemma {:induction false} RemoveQuotesConcat(a: string, b: string)
    ensures RemoveQuotes(a + b) == RemoveQuotes(a) + RemoveQuotes(b)
  {
    if |a| == 0 {
      assert a + b == b;
    } else {
      assert (a + b)[1..] == a[1..] + b;
      RemoveQuotesConcat(a[1..], b);
    }
  }
}
