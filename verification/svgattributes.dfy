/**
 * Scraping attributes out of serialized SVG markup, the way the Arc
 * component does it: the global regular expression `[\w-]+="[^"]*"`, the
 * quote-stripping value extractor `c`, the "last token containing `d=`"
 * scan, and the `viewBox` extraction by `split` and `replace`.
 */
module SvgAttributes {
  import opened Wrappers
  import opened JsStrings

  /** The regex class `[\w-]`: an ASCII letter, digit, underscore or hyphen. */
  predicate IsNameChar(c: char) {
    ('A' <= c <= 'Z') || ('a' <= c <= 'z') || ('0' <= c <= '9') || c == '_' || c == '-'
  }

  /**
   * `w` splits, after `n` characters, into `name="value"`: a non-empty name
   * of `[\w-]` characters, `="`, a value without `"`, and a closing `"`.
   */
  predicate TokenSplit(w: string, n: nat) {
    && 0 < n && n + 3 <= |w|
    && (forall k :: 0 <= k < n ==> IsNameChar(w[k]))
    && w[n] == '=' && w[n + 1] == '"'
    && w[|w| - 1] == '"'
    && (forall k :: n + 2 <= k < |w| - 1 ==> w[k] != '"')
  }

  /** `w` is a whole match of `[\w-]+="[^"]*"`. */
  ghost predicate IsToken(w: string) {
    exists n :: TokenSplit(w, n)
  }

  /** The end of the longest run of `[\w-]` characters starting at `p`. */
  function NameEnd(s: string, p: nat): (j: nat)
    requires p <= |s|
    ensures p <= j <= |s|
    ensures forall k :: p <= k < j ==> IsNameChar(s[k])
    ensures j == |s| || !IsNameChar(s[j])
    decreases |s| - p
  {
    if p < |s| && IsNameChar(s[p]) then NameEnd(s, p + 1) else p
  }

  /** The index of the first `"` at or after `p`, or `|s|` if there is none. */
  function QuoteFrom(s: string, p: nat): (k: nat)
    requires p <= |s|
    ensures p <= k <= |s|
    ensures forall q :: p <= q < k ==> s[q] != '"'
    ensures k == |s| || s[k] == '"'
    decreases |s| - p
  {
    if p < |s| && s[p] != '"' then QuoteFrom(s, p + 1) else p
  }

  /**
   * One attempt of the regex anchored at `p`: the end of the match, or `None`.
   * Backtracking cannot help: a shorter name is followed by a name character,
   * not `=`, and a shorter value by a non-quote character, not `"`.
   */
  function MatchAt(s: string, p: nat): (r: Option<nat>)
    requires p <= |s|
    ensures r.Some? ==> p < r.value <= |s| && TokenSplit(s[p..r.value], NameEnd(s, p) - p)
    ensures forall e, n :: p < e <= |s| && TokenSplit(s[p..e], n) ==> r == Some(e)
  {
    var j := NameEnd(s, p);
    if j == p || j + 2 > |s| || s[j] != '=' || s[j + 1] != '"' then
      NoTokenAt(s, p);
      None
    else
      var k := QuoteFrom(s, j + 2);
      if k == |s| then
        NoTokenAt(s, p);
        None
      else
        TokenFound(s, p, j, k);
        TokenEndsAt(s, p, k);
        Some(k + 1)
  }

  /** Where the name or the `="…"` after it is missing, no token starts at `p`. */
  lemma NoTokenAt(s: string, p: nat)
    requires p <= |s|
    requires var j := NameEnd(s, p);
      j == p || j + 2 > |s| || s[j] != '=' || s[j + 1] != '"' || QuoteFrom(s, j + 2) == |s|
    ensures forall e, n :: p < e <= |s| && TokenSplit(s[p..e], n) ==> false
  {
    TokenAnchors(s, p);
  }

  /** A token starting at `p` ends just after the first `"` that follows its `="`. */
  lemma TokenEndsAt(s: string, p: nat, k: nat)
    requires p <= |s| && NameEnd(s, p) + 2 <= |s| && k == QuoteFrom(s, NameEnd(s, p) + 2)
    ensures forall e, n :: p < e <= |s| && TokenSplit(s[p..e], n) ==> e == k + 1
  {
    TokenAnchors(s, p);
  }

  /** A name, `="`, a run of non-quotes and a quote make a token. */
  lemma TokenFound(s: string, p: nat, j: nat, k: nat)
    requires p < j && j + 2 <= k < |s|
    requires forall q :: p <= q < j ==> IsNameChar(s[q])
    requires s[j] == '=' && s[j + 1] == '"' && s[k] == '"'
    requires forall q :: j + 2 <= q < k ==> s[q] != '"'
    ensures TokenSplit(s[p..k + 1], j - p)
  {
    var w := s[p..k + 1];
    forall q | 0 <= q < |w| ensures w[q] == s[p + q] { }
  }

  /** A token at `p` fixes where the name ends and where the closing quote stands. */
  lemma TokenAnchors(s: string, p: nat)
    requires p <= |s|
    ensures forall e, n :: p < e <= |s| && TokenSplit(s[p..e], n) ==>
      NameEnd(s, p) == p + n && s[p + n] == '=' && s[p + n + 1] == '"' &&
      QuoteFrom(s, p + n + 2) == e - 1
  {
    forall e, n | p < e <= |s| && TokenSplit(s[p..e], n)
      ensures NameEnd(s, p) == p + n && s[p + n] == '=' && s[p + n + 1] == '"'
      ensures QuoteFrom(s, p + n + 2) == e - 1
    {
      var w := s[p..e];
      forall k | 0 <= k < |w| ensures w[k] == s[p + k] { }
      NameEndOfToken(s, p, p, n);
      QuoteFromOfToken(s, p + n + 2, e - 1);
    }
  }

  /** Whatever `MatchAt` finds is a token. */
  lemma MatchAtSound(s: string, p: nat)
    requires p <= |s| && MatchAt(s, p).Some?
    ensures IsToken(s[p..MatchAt(s, p).value])
  {
    var n := NameEnd(s, p) - p;
    assert TokenSplit(s[p..MatchAt(s, p).value], n);
  }

  /** A token starting at `p` is exactly what `MatchAt` finds there: the match is unique. */
  lemma MatchAtComplete(s: string, p: nat, e: nat)
    requires p < e <= |s| && IsToken(s[p..e])
    ensures MatchAt(s, p) == Some(e)
  {
    var n :| TokenSplit(s[p..e], n);
  }

  lemma {:induction false} NameEndOfToken(s: string, p: nat, q: nat, n: nat)
    requires p <= q <= p + n < |s|
    requires forall k :: q <= k < p + n ==> IsNameChar(s[k])
    requires !IsNameChar(s[p + n])
    ensures NameEnd(s, q) == p + n
    decreases p + n - q
  {
    if q < p + n {
      NameEndOfToken(s, p, q + 1, n);
    }
  }

  lemma {:induction false} QuoteFromOfToken(s: string, q: nat, k: nat)
    requires q <= k < |s|
    requires forall i :: q <= i < k ==> s[i] != '"'
    requires s[k] == '"'
    ensures QuoteFrom(s, q) == k
    decreases k - q
  {
    if q < k {
      QuoteFromOfToken(s, q + 1, k);
    }
  }

  /** Where one match lies in the scanned string. */
  datatype Span = Span(start: nat, end: nat)

  /**
   * All matches of the global regex from `p` on, left to right: try at each
   * position, and after a match resume at its end.
   */
  function Spans(s: string, p: nat): (r: seq<Span>)
    requires p <= |s|
    ensures forall k :: 0 <= k < |r| ==>
      p <= r[k].start < r[k].end <= |s| && MatchAt(s, r[k].start) == Some(r[k].end)
    ensures forall k :: 0 <= k < |r| - 1 ==> r[k].end <= r[k + 1].start
    decreases |s| - p
  {
    if p == |s| then []
    else
      match MatchAt(s, p)
      case Some(e) => SpansCons(s, p, e, Spans(s, e)); [Span(p, e)] + Spans(s, e)
      case None => Spans(s, p + 1)
  }

  /** A match at `p` ending at `e`, followed by well-placed matches from `e` on, is well placed. */
  lemma SpansCons(s: string, p: nat, e: nat, rest: seq<Span>)
    requires p < e <= |s| && MatchAt(s, p) == Some(e)
    requires forall k :: 0 <= k < |rest| ==>
      e <= rest[k].start < rest[k].end <= |s| && MatchAt(s, rest[k].start) == Some(rest[k].end)
    requires forall k :: 0 <= k < |rest| - 1 ==> rest[k].end <= rest[k + 1].start
    ensures var r := [Span(p, e)] + rest;
      (forall k :: 0 <= k < |r| ==>
        p <= r[k].start < r[k].end <= |s| && MatchAt(s, r[k].start) == Some(r[k].end)) &&
      (forall k :: 0 <= k < |r| - 1 ==> r[k].end <= r[k + 1].start)
  {
    var r := [Span(p, e)] + rest;
    forall k | 0 < k < |r| ensures r[k] == rest[k - 1] { }
  }

  /** The scan finds nothing exactly when no match starts anywhere from `p` on. */
  lemma {:induction false} SpansEmpty(s: string, p: nat)
    requires p <= |s|
    ensures |Spans(s, p)| == 0 <==> forall q :: p <= q <= |s| ==> MatchAt(s, q).None?
    decreases |s| - p
  {
    if p == |s| {
      assert NameEnd(s, p) == p;
    } else {
      match MatchAt(s, p)
      case Some(e) =>
        SpansAtMatch(s, p, e);
      case None =>
        SpansAtNoMatch(s, p);
        SpansEmpty(s, p + 1);
    }
  }

  /** The first match the scan reports is the leftmost one. */
  lemma {:induction false} SpansLeftmost(s: string, p: nat)
    requires p <= |s| && |Spans(s, p)| > 0
    ensures forall q :: p <= q < Spans(s, p)[0].start ==> MatchAt(s, q).None?
    decreases |s| - p
  {
    if MatchAt(s, p).None? {
      assert p < |s| && Spans(s, p) == Spans(s, p + 1);
      SpansLeftmost(s, p + 1);
    }
  }

  /** A scan that reports something started before the end. */
  lemma SpansBound(s: string, p: nat)
    requires p <= |s| && |Spans(s, p)| > 0
    ensures p < |s|
  {
  }

  /** One step of the scan where a match starts at `p`. */
  lemma SpansAtMatch(s: string, p: nat, e: nat)
    requires p < |s| && MatchAt(s, p) == Some(e)
    ensures p < e <= |s| && Spans(s, p) == [Span(p, e)] + Spans(s, e)
  {
  }

  /** One step of the scan where no match starts at `p`. */
  lemma SpansAtNoMatch(s: string, p: nat)
    requires p < |s| && MatchAt(s, p).None?
    ensures Spans(s, p) == Spans(s, p + 1)
  {
  }

  /** Prepending one element shifts every index of `rest` up by one. */
  lemma ConsShift<T>(x: T, rest: seq<T>)
    ensures |[x] + rest| == |rest| + 1 && ([x] + rest)[0] == x
    ensures forall k :: 0 < k <= |rest| ==> ([x] + rest)[k] == rest[k - 1]
  {
  }

  /** Dropping the head and then `k` more elements is dropping `k` elements of the tail. */
  lemma ConsDrop<T>(x: T, rest: seq<T>, k: nat)
    requires k <= |rest|
    ensures ([x] + rest)[k + 1..] == rest[k..]
  {
  }

  /** The scan resumed at the end of its `k`-th match reports exactly the matches after it. */
  lemma {:induction false} SpansResume(s: string, p: nat, k: nat)
    requires p <= |s| && k < |Spans(s, p)|
    ensures Spans(s, p)[k].end <= |s|
    ensures Spans(s, Spans(s, p)[k].end) == Spans(s, p)[k + 1..]
    decreases |s| - p
  {
    SpansBound(s, p);
    match MatchAt(s, p)
    case Some(e) =>
      var rest := Spans(s, e);
      SpansAtMatch(s, p, e);
      ConsShift(Span(p, e), rest);
      if k == 0 {
        ConsDrop(Span(p, e), rest, 0);
      } else {
        SpansResume(s, e, k - 1);
        ConsDrop(Span(p, e), rest, k);
      }
    case None =>
      SpansAtNoMatch(s, p);
      SpansResume(s, p + 1, k);
  }

  /** After the last match the scan reports, no further match could start. */
  lemma SpansComplete(s: string, p: nat)
    requires p <= |s| && |Spans(s, p)| > 0
    ensures forall q :: Spans(s, p)[|Spans(s, p)| - 1].end <= q <= |s| ==> MatchAt(s, q).None?
  {
    var last := |Spans(s, p)| - 1;
    SpansResume(s, p, last);
    SpansEmpty(s, Spans(s, p)[last].end);
  }

  /** Between two consecutive matches no match could have started. */
  lemma SpansLeaveNoGap(s: string, p: nat, k: nat)
    requires p <= |s| && k + 1 < |Spans(s, p)|
    ensures forall q :: Spans(s, p)[k].end <= q < Spans(s, p)[k + 1].start ==> MatchAt(s, q).None?
  {
    SpansResume(s, p, k);
    SpansLeftmost(s, Spans(s, p)[k].end);
  }

  /**
   * `s.match(/[\w-]+="[^"]*"/g)`: the matched substrings in order, or `None`
   * (JavaScript's `null`) when nothing matches.
   */
  function Tokenize(s: string): (r: Option<seq<string>>)
    ensures r.None? <==> forall q :: 0 <= q <= |s| ==> MatchAt(s, q).None?
    ensures r.Some? ==> |r.value| == |Spans(s, 0)| > 0
    ensures r.Some? ==> forall k :: 0 <= k < |r.value| ==>
      r.value[k] == s[Spans(s, 0)[k].start..Spans(s, 0)[k].end]
    ensures r.Some? ==> forall q :: Spans(s, 0)[|r.value| - 1].end <= q <= |s| ==> MatchAt(s, q).None?
  {
    var spans := Spans(s, 0);
    if |spans| == 0 then
      SpansEmpty(s, 0);
      None
    else
      assert MatchAt(s, spans[0].start).Some?;
      SpansComplete(s, 0);
      Some(seq(|spans|, k requires 0 <= k < |spans| => s[spans[k].start..spans[k].end]))
  }

  /** Every matched substring has the form `name="value"` with no `"` inside the value. */
  lemma TokensWellFormed(s: string)
    requires Tokenize(s).Some?
    ensures forall k :: 0 <= k < |Tokenize(s).value| ==> IsToken(Tokenize(s).value[k])
  {
    var spans := Spans(s, 0);
    forall k | 0 <= k < |Tokenize(s).value| ensures IsToken(Tokenize(s).value[k]) {
      MatchAtSound(s, spans[k].start);
    }
  }

  /** The scan's test `t.includes("d=")`. */
  predicate NamesPathData(t: string) {
    Includes(t, "d=")
  }

  /** Any token the scan accepts has an `=` for `c` to split on. */
  lemma PathDataHasEquals(t: string)
    requires NamesPathData(t)
    ensures '=' in t
  {
    var i :| 0 <= i <= |t| - 2 && OccursAt(t, "d=", i);
    assert t[i..i + 2][1] == '=';
  }

  /**
   * The helper `c`: `e.split("=")[1].replace(/['"]+/g, "")`. Defined only
   * when the text has an `=`, which every caller guarantees.
   */
  function AttributeValue(t: string): (v: string)
    requires '=' in t
    ensures forall k :: 0 <= k < |v| ==> v[k] != '"' && v[k] != '\'' && v[k] != '='
    ensures IndexOf(t, "=", 0).Some? &&
      var st := IndexOf(t, "=", 0).value + 1;
      v == RemoveQuotes(match IndexOf(t, "=", st) case None => t[st..] case Some(j) => t[st..j])
  {
    var i := IndexOf(t, "=", 0);
    assert i.Some? by {
      var q :| 0 <= q < |t| && t[q] == '=';
      OccursAtChar(t, '=', q);
      IndexOfSpec(t, "=", 0);
    }
    SplitSecondPiece(t, "=");
    var field := Split(t, "=")[1];
    SplitPiecesFree(t, "=", 0);
    NoEqualsInPiece(field);
    RemoveQuotes(field)
  }

  /** A piece of `split("=")` has no `=` in it, and quote removal keeps it that way. */
  lemma NoEqualsInPiece(field: string)
    requires !Includes(field, "=")
    ensures forall k :: 0 <= k < |RemoveQuotes(field)| ==> RemoveQuotes(field)[k] != '='
  {
    forall q | 0 <= q < |field| ensures field[q] != '=' {
      OccursAtChar(field, '=', q);
    }
    assert '=' !in multiset(field);
    var r := RemoveQuotes(field);
    assert multiset(r)['='] == 0;
    forall k | 0 <= k < |r| ensures r[k] != '=' {
      assert r[k] in multiset(r);
    }
  }

  /** A full attribute `name="value"`. */
  function Attribute(name: string, value: string): string {
    name + "=\"" + value + "\""
  }

  /**
   * On a well-formed attribute whose value holds no `=` and no quote, `c`
   * gives back exactly the value.
   */
  lemma AttributeValueRoundTrip(name: string, value: string)
    requires forall k :: 0 <= k < |name| ==> IsNameChar(name[k])
    requires forall k :: 0 <= k < |value| ==> value[k] != '=' && !IsQuote(value[k])
    ensures '=' in Attribute(name, value)
    ensures AttributeValue(Attribute(name, value)) == value
  {
    var t := Attribute(name, value);
    assert t[|name|] == '=';
    ValueOfAttribute(name, value);
    assert Split(t, "=")[1] == "\"" + value + "\"";
    RemoveQuotesConcat("\"" + value, "\"");
    RemoveQuotesConcat("\"", value);
    RemoveQuotesNoQuotes(value);
    assert RemoveQuotes("\"") == "";
  }

  /**
   * When the value of a well-formed attribute does contain `=`, `c` keeps only
   * the part before the first one, with its quotes removed.
   */
  lemma AttributeValueTruncates(name: string, value: string, i: nat)
    requires forall k :: 0 <= k < |name| ==> IsNameChar(name[k])
    requires i < |value| && value[i] == '=' && '=' !in value[..i]
    ensures '=' in Attribute(name, value)
    ensures AttributeValue(Attribute(name, value)) == RemoveQuotes(value[..i])
  {
    var t := Attribute(name, value);
    AttributeChars(name, value);
    TruncatedField(name, value, i);
    RemoveQuotesConcat("\"", value[..i]);
    assert RemoveQuotes("\"") == "";
  }

  /** The field `split("=")[1]` of an attribute ends at the first `=` inside its value. */
  lemma TruncatedField(name: string, value: string, i: nat)
    requires forall k :: 0 <= k < |name| ==> IsNameChar(name[k])
    requires i < |value| && value[i] == '=' && '=' !in value[..i]
    ensures |Split(Attribute(name, value), "=")| >= 2
    ensures Split(Attribute(name, value), "=")[1] == "\"" + value[..i]
  {
    AttributeChars(name, value);
    LaidOutTruncated(Attribute(name, value), name, value, i);
  }

  /** The piece of `split("=")` after the first `=` of a value free of `=`. */
  lemma ValueOfAttribute(name: string, value: string)
    requires forall k :: 0 <= k < |name| ==> IsNameChar(name[k])
    requires forall k :: 0 <= k < |value| ==> value[k] != '='
    ensures |Split(Attribute(name, value), "=")| >= 2
    ensures Split(Attribute(name, value), "=")[1] == "\"" + value + "\""
  {
    AttributeChars(name, value);
    LaidOutWhole(Attribute(name, value), name, value);
  }

  /** `t` is spelled `name="value"`, character by character. */
  ghost predicate LaidOut(t: string, name: string, value: string)
  {
    && |t| == |name| + |value| + 3
    && (forall k :: 0 <= k < |name| ==> t[k] == name[k])
    && t[|name|] == '=' && t[|name| + 1] == '"'
    && (forall k :: 0 <= k < |value| ==> t[|name| + 2 + k] == value[k])
    && t[|t| - 1] == '"'
  }

  /** Where the parts of `name="value"` stand. */
  lemma AttributeChars(name: string, value: string)
    ensures LaidOut(Attribute(name, value), name, value)
  {
  }

  /** In `name="…"` with a name of `[\w-]` characters, the first `=` follows the name. */
  lemma FirstEquals(t: string, name: string, value: string)
    requires LaidOut(t, name, value)
    requires forall k :: 0 <= k < |name| ==> IsNameChar(name[k])
    ensures IndexOf(t, "=", 0) == Some(|name|)
  {
    IndexOfCharIs(t, '=', 0, |name|);
  }

  /** `split("=")[1]` of `name="value"` when `value` holds no `=`. */
  lemma LaidOutWhole(t: string, name: string, value: string)
    requires LaidOut(t, name, value)
    requires forall k :: 0 <= k < |name| ==> IsNameChar(name[k])
    requires forall k :: 0 <= k < |value| ==> value[k] != '='
    ensures |Split(t, "=")| >= 2 && Split(t, "=")[1] == "\"" + value + "\""
  {
    var st := |name| + 1;
    FirstEquals(t, name, value);
    var field := "\"" + value + "\"";
    forall k | 0 <= k < |field| ensures t[st..][k] == field[k] {
      if 0 < k < |field| - 1 {
        assert field[k] == value[k - 1];
      }
    }
    forall q | st <= q < |t| ensures t[q] != '=' {
      if st < q < |t| - 1 {
        assert t[q] == value[q - st - 1];
      }
    }
    IndexOfCharNone(t, '=', st);
    SplitSecondPieceLast(t, "=", |name|);
  }

  /** `split("=")[1]` of `name="value"` when `value[i]` is its first `=`. */
  lemma LaidOutTruncated(t: string, name: string, value: string, i: nat)
    requires LaidOut(t, name, value)
    requires forall k :: 0 <= k < |name| ==> IsNameChar(name[k])
    requires i < |value| && value[i] == '=' && '=' !in value[..i]
    ensures |Split(t, "=")| >= 2 && Split(t, "=")[1] == "\"" + value[..i]
  {
    var st := |name| + 1;
    var e := st + 1 + i;
    FirstEquals(t, name, value);
    forall q | st <= q < e ensures t[q] != '=' {
      if q > st {
        assert value[..i][q - st - 1] == value[q - st - 1];
      }
    }
    IndexOfCharIs(t, '=', st, e);
    var field := "\"" + value[..i];
    forall k | 0 <= k < 1 + i ensures t[st..e][k] == field[k] {
      if k > 0 {
        assert field[k] == value[k - 1];
      }
    }
    SplitSecondPieceIs(t, "=", |name|, e);
  }

  /**
   * The position of the LAST token that contains `d=`, or `None` when no
   * token does.
   */
  function LastPathIndex(toks: seq<string>): (r: Option<nat>)
    ensures r.None? <==> forall k :: 0 <= k < |toks| ==> !NamesPathData(toks[k])
    ensures r.Some? ==> r.value < |toks| && NamesPathData(toks[r.value])
    ensures r.Some? ==> forall j :: r.value < j < |toks| ==> !NamesPathData(toks[j])
  {
    if |toks| == 0 then None
    else if NamesPathData(toks[|toks| - 1]) then Some(|toks| - 1)
    else
      var init := toks[..|toks| - 1];
      assert forall k :: 0 <= k < |init| ==> init[k] == toks[k];
      LastPathIndex(init)
  }

  /**
   * The data the scan ends with: the value of the last token that contains
   * `d=`, or `None` when no token does.
   */
  function LastPathData(toks: seq<string>): (r: Option<string>)
    ensures r.None? <==> forall k :: 0 <= k < |toks| ==> !NamesPathData(toks[k])
    ensures r.Some? ==> exists k :: 0 <= k < |toks| && NamesPathData(toks[k]) &&
                                    (forall j :: k < j < |toks| ==> !NamesPathData(toks[j])) &&
                                    '=' in toks[k] && r.value == AttributeValue(toks[k])
  {
    match LastPathIndex(toks)
    case None => None
    case Some(k) =>
      PathDataHasEquals(toks[k]);
      Some(AttributeValue(toks[k]))
  }

  /**
   * The source's loop `for (t of tokens) t.includes("d=") && (a = c(t))`,
   * run forward: each qualifying token overwrites the previous value.
   */
  method ScanPathData(toks: seq<string>) returns (a: Option<string>)
    ensures a == LastPathData(toks)
  {
    a := None;
    var i := 0;
    while i < |toks|
      invariant 0 <= i <= |toks|
      invariant a == LastPathData(toks[..i])
    {
      assert toks[..i + 1][..i] == toks[..i];
      if NamesPathData(toks[i]) {
        PathDataHasEquals(toks[i]);
        a := Some(AttributeValue(toks[i]));
      }
      i := i + 1;
    }
    assert toks[..i] == toks;
  }

  /** An `id="…"` attribute also contains `d=`, so it too is taken for path data. */
  lemma IdTokenQualifies(value: string)
    ensures NamesPathData(Attribute("id", value))
  {
    var t := Attribute("id", value);
    assert t[1..3] == "d=";
    assert OccursAt(t, "d=", 1);
  }

  /** A JavaScript line terminator, which the regex `.` does not match. */
  predicate IsLineTerminator(c: char) {
    c == '\n' || c == '\r' || c == '\U{2028}' || c == '\U{2029}'
  }

  /**
   * `v.replace(/^"(.+(?="$))"$/, "$1")`: drop the outer quotes when `v` is a
   * quote, at least one character that is not a line terminator, and a quote.
   */
  function StripOuterQuotes(v: string): (r: string)
    ensures |r| == |v| ==> r == v
    ensures |r| != |v| <==>
      |v| >= 3 && v[0] == '"' && v[|v| - 1] == '"' &&
      forall k :: 1 <= k < |v| - 1 ==> !IsLineTerminator(v[k])
    ensures |r| != |v| ==> r == v[1..|v| - 1]
  {
    if |v| >= 3 && v[0] == '"' && v[|v| - 1] == '"' &&
       forall k :: 1 <= k < |v| - 1 ==> !IsLineTerminator(v[k])
    then v[1..|v| - 1]
    else v
  }

  /** Quoting a non-empty one-line text and stripping the quotes again gives the text back. */
  lemma StripQuotesRoundTrip(w: string)
    requires |w| > 0 && OneLine(w)
    ensures StripOuterQuotes("\"" + w + "\"") == w
  {
    var v := "\"" + w + "\"";
    assert forall k :: 1 <= k < |v| - 1 ==> v[k] == w[k - 1];
    assert v[1..|v| - 1] == w;
  }

  /** The separators the extraction splits on. */
  const ViewBoxKey: string := "viewBox="
  const TagEnd: string := ">"

  /**
   * The `viewBox` read from serialized markup:
   * `l.split("viewBox=")[1].split(">")[0]` with outer quotes stripped; `None`
   * when the markup has no `viewBox=` (the source then reads a property of
   * `undefined` and throws).
   */
  function MarkupViewBox(l: string): (r: Option<string>)
    ensures r.None? <==> !Includes(l, ViewBoxKey)
  {
    SplitSecondPiece(l, ViewBoxKey);
    IncludesIffIndexOf(l, ViewBoxKey);
    match Nth(Split(l, ViewBoxKey), 1)
    case None => None
    case Some(rest) => Some(StripOuterQuotes(Split(rest, TagEnd)[0]))
  }

  /** `includes` holds exactly when `indexOf` finds something. */
  lemma IncludesIffIndexOf(s: string, pat: string)
    requires |pat| > 0
    ensures Includes(s, pat) <==> IndexOf(s, pat, 0).Some?
  {
    IndexOfSpec(s, pat, 0);
  }

  /**
   * Where the extracted text ends in general: after the first `viewBox=` it
   * runs to the second `viewBox=` or the end of the markup, whichever is
   * first, and is cut there at the first `>` if one comes before.
   */
  lemma MarkupViewBoxCut(l: string, i: nat)
    requires IndexOf(l, ViewBoxKey, 0) == Some(i)
    ensures var st := i + |ViewBoxKey|;
      var end := match IndexOf(l, ViewBoxKey, st) case None => |l| case Some(e) => e;
      var cut := match IndexOf(l, TagEnd, st) case Some(j) => (if j < end then j else end) case None => end;
      MarkupViewBox(l) == Some(StripOuterQuotes(l[st..cut]))
  {
    SplitThenFirst(l, ViewBoxKey, TagEnd, i);
  }

  /**
   * The extracted text is what lies between the first `viewBox=` and the
   * first `>` after it, provided no second `viewBox=` comes before that `>`.
   */
  lemma MarkupViewBoxSegment(l: string, i: nat, j: nat)
    requires IndexOf(l, ViewBoxKey, 0) == Some(i)
    requires IndexOf(l, TagEnd, i + |ViewBoxKey|) == Some(j)
    requires forall q :: i + |ViewBoxKey| <= q < j ==> !OccursAt(l, ViewBoxKey, q)
    ensures MarkupViewBox(l) == Some(StripOuterQuotes(l[i + |ViewBoxKey|..j]))
  {
    var st := i + |ViewBoxKey|;
    var end := match IndexOf(l, ViewBoxKey, st) case None => |l| case Some(e) => e;
    assert j < end by {
      assert l[j] == '>' by {
        IndexOfSpec(l, TagEnd, st);
        OccursAtChar(l, '>', j);
      }
      if IndexOf(l, ViewBoxKey, st).Some? {
        IndexOfSpec(l, ViewBoxKey, st);
        assert l[end..end + |ViewBoxKey|][0] == 'v';
      }
    }
    MarkupViewBoxCut(l, i);
  }

  /** The opening of a serialized `<svg>` tag whose first attribute is the `viewBox`. */
  const SvgOpen: string := "<svg viewBox="

  /**
   * For markup `<svg viewBox=` + `v` + `>` + anything, where `v` holds no `>`
   * and no `viewBox=`, the extraction yields `v` with its outer quotes stripped.
   */
  lemma MarkupViewBoxOfTag(v: string, tail: string)
    requires '>' !in v && !Includes(v, ViewBoxKey)
    ensures MarkupViewBox(SvgOpen + v + TagEnd + tail) == Some(StripOuterQuotes(v))
  {
    var l := SvgOpen + v + TagEnd + tail;
    var j := |SvgOpen| + |v|;
    assert l[..|SvgOpen|] == SvgOpen && l[|SvgOpen|..j] == v && l[j] == '>';
    FirstTagSegment(l, j);
  }

  /**
   * Markup that opens with `<svg viewBox=` and has its first `>` at `j`,
   * with no `viewBox=` in between, yields the text between the two.
   */
  lemma FirstTagSegment(l: string, j: nat)
    requires |SvgOpen| <= j < |l| && l[..|SvgOpen|] == SvgOpen && l[j] == '>'
    requires '>' !in l[|SvgOpen|..j] && !Includes(l[|SvgOpen|..j], ViewBoxKey)
    ensures MarkupViewBox(l) == Some(StripOuterQuotes(l[|SvgOpen|..j]))
  {
    SvgOpenSpelling();
    FirstViewBoxAt5(l);
    var v := l[13..j];
    assert IndexOf(l, TagEnd, 13) == Some(j) by {
      forall q | 13 <= q < j ensures l[q] != '>' {
        assert l[q] == v[q - 13];
      }
      IndexOfCharIs(l, '>', 13, j);
    }
    assert forall q :: 13 <= q < j ==> !OccursAt(l, ViewBoxKey, q) by {
      assert '>' !in ViewBoxKey;
      forall q | 13 <= q < j ensures !OccursAt(l, ViewBoxKey, q) {
        if q + |ViewBoxKey| <= j {
          if OccursAt(l, ViewBoxKey, q) {
            OccursInSliceBack(l, ViewBoxKey, 13, j, q);
          }
        } else {
          NotOccursAt(l, ViewBoxKey, q, j - q);
        }
      }
    }
    MarkupViewBoxSegment(l, 5, j);
  }

  /** A quoted `viewBox` written last in the tag comes out without its quotes. */
  lemma ViewBoxLastAttribute(w: string, tail: string)
    requires |w| > 0 && OneLine(w)
    requires '>' !in w && '"' !in w && !Includes(w, ViewBoxKey)
    ensures MarkupViewBox(SvgOpen + "\"" + w + "\"" + TagEnd + tail) == Some(w)
  {
    var v := "\"" + w + "\"";
    assert SvgOpen + "\"" + w + "\"" == SvgOpen + v;
    NoKeyInQuoted(w);
    MarkupViewBoxOfTag(v, tail);
    StripQuotesRoundTrip(w);
  }

  /** Quoting a text without `"` adds no occurrence of `viewBox=`. */
  lemma NoKeyInQuoted(w: string)
    requires '"' !in w && !Includes(w, ViewBoxKey)
    ensures '>' !in w ==> '>' !in "\"" + w + "\""
    ensures !Includes("\"" + w + "\"", ViewBoxKey)
  {
    var v := "\"" + w + "\"";
    assert '"' !in ViewBoxKey;
    forall q | 0 <= q <= |v| - |ViewBoxKey| ensures !OccursAt(v, ViewBoxKey, q) {
      if q == 0 {
        NotOccursAt(v, ViewBoxKey, 0, 0);
      } else if q + |ViewBoxKey| < |v| {
        assert v[q..q + |ViewBoxKey|] == w[q - 1..q - 1 + |ViewBoxKey|];
        assert !OccursAt(w, ViewBoxKey, q - 1);
      } else {
        NotOccursAt(v, ViewBoxKey, q, |v| - 1 - q);
      }
    }
  }

  /** Both tags above open with `<svg viewBox=`, so the first `viewBox=` is at 5. */
  lemma FirstViewBoxAt5(l: string)
    requires |l| >= 13 && l[..13] == SvgOpen
    ensures IndexOf(l, ViewBoxKey, 0) == Some(5)
  {
    ViewBoxKeyAt5(l);
    NoViewBoxKeyBefore5(l);
    IndexOfIs(l, ViewBoxKey, 0, 5);
  }

  /** Markup opening with `<svg viewBox=` holds the key at position 5. */
  lemma ViewBoxKeyAt5(l: string)
    requires |l| >= 13 && l[..13] == SvgOpen
    ensures OccursAt(l, ViewBoxKey, 5)
  {
    SvgOpenSpelling();
    assert l[5..13] == l[..13][5..13];
  }

  /** `<svg ` holds no `viewBox=`: no occurrence starts before position 5. */
  lemma NoViewBoxKeyBefore5(l: string)
    requires |l| >= 13 && l[..13] == SvgOpen
    ensures forall q :: 0 <= q < 5 ==> !OccursAt(l, ViewBoxKey, q)
  {
    SvgOpenSpelling();
    assert l[0] == l[..13][0] && l[1] == l[..13][1] && l[3] == l[..13][3] && l[4] == l[..13][4];
    NotOccursAt(l, ViewBoxKey, 0, 0);
    NotOccursAt(l, ViewBoxKey, 1, 0);
    NotOccursAt(l, ViewBoxKey, 2, 1);
    NotOccursAt(l, ViewBoxKey, 3, 0);
    NotOccursAt(l, ViewBoxKey, 4, 0);
  }

  /** The characters of `<svg viewBox=` that rule out an earlier key. */
  lemma SvgOpenSpelling()
    ensures |SvgOpen| == 13 && SvgOpen[5..] == ViewBoxKey
    ensures SvgOpen[0] == '<' && SvgOpen[1] == 's' && SvgOpen[3] == 'g' && SvgOpen[4] == ' '
    ensures ViewBoxKey[0] == 'v' && ViewBoxKey[1] == 'i'
  {
  }

  /**
   * A `viewBox` followed by a further attribute drags it along: only the
   * first and last quotes of the whole segment are removed, so the result
   * is the value, a quote, and the next attribute less its final quote.
   */
  lemma ViewBoxFollowedByAttribute(w: string, name: string, x: string)
    requires OneLine(w) && OneLine(name) && OneLine(x)
    requires forall k :: 0 <= k < |name| ==> IsNameChar(name[k])
    requires '>' !in w && '>' !in name && '>' !in x
    requires !Includes("\"" + w + "\" " + Attribute(name, x), ViewBoxKey)
    ensures MarkupViewBox(SvgOpen + ("\"" + w + "\" " + Attribute(name, x)) + TagEnd) ==
      Some(w + "\" " + name + "=\"" + x)
  {
    var v := "\"" + w + "\" " + Attribute(name, x);
    var inner := w + "\" " + name + "=\"" + x;
    assert v == "\"" + inner + "\"" by {
      assert Attribute(name, x) == name + "=\"" + x + "\"";
    }
    assert OneLine(inner) by {
      OneLineConcat(w, "\" ");
      OneLineConcat(w + "\" ", name);
      OneLineConcat(w + "\" " + name, "=\"");
      OneLineConcat(w + "\" " + name + "=\"", x);
    }
    assert MarkupViewBox(SvgOpen + v + TagEnd) == Some(inner) by {
      QuotedViewBox(inner, "");
      assert SvgOpen + v + TagEnd + "" == SvgOpen + v + TagEnd;
    }
  }

  /** A text with no line terminator in it. */
  ghost predicate OneLine(s: string) {
    forall k :: 0 <= k < |s| ==> !IsLineTerminator(s[k])
  }

  /** Joining two one-line texts gives a one-line text. */
  lemma OneLineConcat(a: string, b: string)
    requires OneLine(a) && OneLine(b)
    ensures OneLine(a + b)
  {
    forall k | |a| <= k < |a + b| ensures !IsLineTerminator((a + b)[k]) {
      assert (a + b)[k] == b[k - |a|];
    }
  }

  /** A quoted one-line `viewBox` value that ends the tag's text comes out without its quotes. */
  lemma QuotedViewBox(inner: string, tail: string)
    requires |inner| > 0 && OneLine(inner) && '>' !in inner
    requires !Includes("\"" + inner + "\"", ViewBoxKey)
    ensures MarkupViewBox(SvgOpen + ("\"" + inner + "\"") + TagEnd + tail) == Some(inner)
  {
    var v := "\"" + inner + "\"";
    assert '>' !in v;
    MarkupViewBoxOfTag(v, tail);
    StripQuotesRoundTrip(inner);
  }

}
