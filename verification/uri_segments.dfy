/** `HttpProvider.JoinUriSegments`: a left fold over the segments that glues
    the accumulated URI and the next segment with one `/`, after stripping
    every trailing `/` from the accumulator (`TrimEnd('/')`) and every leading
    `/` from the segment (`TrimStart('/')`).

    Null references are explicit: the base URI and the segment array are
    `Option`s, and so is every element of the array. A null element makes
    `segment.TrimStart` throw, which the model returns as `Thrown`.
 */
module UriSegments {
  import opened Wrappers

  const Slash: char := '/'

  /** Message of the NullReferenceException raised by `null.TrimStart('/')`. */
  const NullReferenceMessage: string := "Object reference not set to an instance of an object."

  /** `char.IsWhiteSpace`: the Unicode space separators, line and paragraph
      separators, and the control characters U+0009..U+000D and U+0085. */
  predicate IsWhiteSpace(c: char) {
    || c == ' '
    || ('\t' <= c <= '\r')
    || c == '\U{0085}'
    || c == '\U{00A0}'
    || c == '\U{1680}'
    || ('\U{2000}' <= c <= '\U{200A}')
    || c == '\U{2028}'
    || c == '\U{2029}'
    || c == '\U{202F}'
    || c == '\U{205F}'
    || c == '\U{3000}'
  }

  /** `string.IsNullOrWhiteSpace`: null, empty, or white space only. */
  predicate IsNullOrWhiteSpace(s: Option<string>) {
    s.None? || forall i :: 0 <= i < |s.value| ==> IsWhiteSpace(s.value[i])
  }

  /** A string made of `/` only (the empty string included). */
  predicate AllSlashes(s: string) {
    forall i :: 0 <= i < |s| ==> s[i] == Slash
  }

  /** `TrimEnd('/')`: the longest prefix of `s` that does not end in `/`;
      what is cut off is slashes only. */
  function TrimEnd(s: string): (r: string)
    ensures |r| <= |s| && r == s[..|r|]
    ensures AllSlashes(s[|r|..])
    ensures r == [] || r[|r| - 1] != Slash
  {
    if |s| > 0 && s[|s| - 1] == Slash then
      var init := s[..|s| - 1];
      var r := TrimEnd(init);
      assert s[..|r|] == init[..|r|];
      assert s[|r|..] == init[|r|..] + [Slash];
      r
    else s
  }

  /** `TrimStart('/')`: the longest suffix of `s` that does not start with
      `/`; what is cut off is slashes only. */
  function TrimStart(s: string): (r: string)
    ensures |r| <= |s| && r == s[|s| - |r|..]
    ensures AllSlashes(s[..|s| - |r|])
    ensures r == [] || r[0] != Slash
  {
    if |s| > 0 && s[0] == Slash then
      var t := s[1..];
      var r := TrimStart(t);
      var k := |s| - |r|;
      DropFirstSlices(s, k);
      AllSlashesCons(s[..k]);
      r
    else s
  }

  lemma DropFirstSlices<T>(s: seq<T>, k: nat)
    requires 1 <= k <= |s|
    ensures s[1..][k - 1..] == s[k..]
    ensures s[..k][1..] == s[1..][..k - 1]
  {
  }

  lemma AllSlashesCons(s: string)
    requires |s| > 0 && s[0] == Slash
    ensures AllSlashes(s) <==> AllSlashes(s[1..])
  {
    assert s == [Slash] + s[1..];
  }

  /** One step of the fold: `$"{current.TrimEnd('/')}/{segment.TrimStart('/')}"`. */
  function Glue(current: string, segment: string): string {
    TrimEnd(current) + [Slash] + TrimStart(segment)
  }

  /** `segments.Aggregate(seed, Glue)`, the segments being non-null. */
  function Fold(seed: string, segments: seq<string>): string
    decreases |segments|
  {
    if |segments| == 0 then seed else Fold(Glue(seed, segments[0]), segments[1..])
  }

  predicate NoNullElement(segments: seq<Option<string>>) {
    forall i :: 0 <= i < |segments| ==> segments[i].Some?
  }

  /** The segment strings of an array without null elements. */
  function Values(segments: seq<Option<string>>): (vs: seq<string>)
    requires NoNullElement(segments)
    ensures |vs| == |segments|
    ensures forall i :: 0 <= i < |vs| ==> segments[i] == Some(vs[i])
  {
    seq(|segments|, i requires 0 <= i < |segments| => segments[i].value)
  }

  /** `JoinUriSegments(uri, params segments)`. */
  function JoinUriSegments(uri: Option<string>, segments: Option<seq<Option<string>>>): (r: Raised<Option<string>>)
    // a blank base gives null whatever the segments are, and only a blank base does
    ensures r == Returned(None) <==> IsNullOrWhiteSpace(uri)
    // no segments: the base comes back untouched
    ensures !IsNullOrWhiteSpace(uri) && (segments.None? || |segments.value| == 0) ==> r == Returned(uri)
    // the only exception is a null element, met while folding
    ensures r.Thrown? <==>
              && !IsNullOrWhiteSpace(uri)
              && segments.Some?
              && !NoNullElement(segments.value)
    ensures r.Thrown? ==> r.message == NullReferenceMessage
  {
    if IsNullOrWhiteSpace(uri) then Returned(None)
    else if segments.None? || |segments.value| == 0 then Returned(uri)
    else if !NoNullElement(segments.value) then Thrown(NullReferenceMessage)
    else Returned(Some(Fold(uri.value, Values(segments.value))))
  }

  /* ---------------------------------------------------------------------
     A closed form of the fold.

     A segment that is slashes only disappears once the next step trims the
     accumulator; any other segment leaves its core (the segment without its
     leading and trailing slashes) behind, preceded by exactly one `/`. The
     last segment keeps its trailing slashes.
     --------------------------------------------------------------------- */

  /** A segment without its leading and trailing slashes. */
  function Core(segment: string): (c: string)
    ensures c == [] || (c[0] != Slash && c[|c| - 1] != Slash)
    ensures c == [] <==> AllSlashes(segment)
  {
    TrimEndOfTrimStartIsEmpty(segment);
    TrimEnd(TrimStart(segment))
  }

  /** What an inner segment leaves in the result: nothing, or `/` and its core. */
  function Piece(segment: string): string {
    if Core(segment) == [] then [] else [Slash] + Core(segment)
  }

  /** The pieces of a run of inner segments, in order. */
  function Pieces(segments: seq<string>): string
    decreases |segments|
  {
    if |segments| == 0 then [] else Pieces(Init(segments)) + Piece(Last(segments))
  }

  /** The result of joining a base with a non-empty list of segments,
      written without a fold. */
  function Joined(base: string, segments: seq<string>): string
    requires |segments| > 0
  {
    TrimEnd(base) + Pieces(Init(segments)) + [Slash] + TrimStart(Last(segments))
  }

  function Init<T>(xs: seq<T>): seq<T>
    requires |xs| > 0
  {
    xs[..|xs| - 1]
  }

  function Last<T>(xs: seq<T>): T
    requires |xs| > 0
  {
    xs[|xs| - 1]
  }

  lemma TrimEndOfTrimStartIsEmpty(s: string)
    ensures TrimEnd(TrimStart(s)) == [] <==> AllSlashes(s)
  {
    var t := TrimStart(s);
    var k := |s| - |t|;
    assert t == s[k..];
    assert AllSlashes(s[..k]);
    assert t == [] || t[0] != Slash;
    if TrimEnd(t) == [] {
      assert AllSlashes(t[0..]);
      assert t == [];
      assert s[..k] == s;
    } else {
      assert t[0] == s[k] && t[0] != Slash;
    }
  }

  /** Trimming the end of a concatenation: the right part survives (trimmed)
      unless it is slashes only, in which case the left part is trimmed too. */
  lemma {:induction false} TrimEndAppend(a: string, b: string)
    ensures TrimEnd(a + b) == if AllSlashes(b) then TrimEnd(a) else a + TrimEnd(b)
    decreases |b|
  {
    if |b| == 0 {
      assert a + b == a;
    } else if b[|b| - 1] == Slash {
      var init := b[..|b| - 1];
      DropLastOfAppend(a, b);
      assert TrimEnd(a + b) == TrimEnd(a + init);
      assert TrimEnd(b) == TrimEnd(init);
      TrimEndAppend(a, init);
      AllSlashesSnoc(b);
    } else {
      assert !AllSlashes(b) by { assert b[|b| - 1] != Slash; }
      assert (a + b)[|a + b| - 1] == b[|b| - 1];
    }
  }

  lemma DropLastOfAppend<T>(a: seq<T>, b: seq<T>)
    requires |b| > 0
    ensures (a + b)[..|a + b| - 1] == a + b[..|b| - 1]
  {
  }

  lemma AllSlashesSnoc(s: string)
    requires |s| > 0 && s[|s| - 1] == Slash
    ensures AllSlashes(s) <==> AllSlashes(s[..|s| - 1])
  {
    assert s == s[..|s| - 1] + [Slash];
  }

  /** Trimming the accumulator after one more glue step keeps what was there
      and adds the segment's piece. */
  lemma TrimEndGlue(current: string, segment: string)
    ensures TrimEnd(Glue(current, segment)) == TrimEnd(current) + Piece(segment)
  {
    if TrimStart(segment) == [] {
      TrimEndGlueEmpty(current, segment);
    } else {
      TrimEndGlueNonEmpty(current, segment);
    }
  }

  /** A segment of slashes only leaves nothing behind once trimmed away. */
  lemma TrimEndGlueEmpty(current: string, segment: string)
    requires TrimStart(segment) == []
    ensures TrimEnd(Glue(current, segment)) == TrimEnd(current)
    ensures Piece(segment) == []
  {
    var a := TrimEnd(current);
    var g := Glue(current, segment);
    assert g == a + [Slash] by {
      assert a + [Slash] + TrimStart(segment) == a + [Slash] + [];
    }
    assert |g| > 0 && g[|g| - 1] == Slash && g[..|g| - 1] == a;
    assert TrimEnd(g) == TrimEnd(a);
    assert a == [] || a[|a| - 1] != Slash;
    assert TrimEnd(a) == a;
    assert Core(segment) == TrimEnd([]);
  }

  /** Any other segment leaves one `/` and its core. */
  lemma TrimEndGlueNonEmpty(current: string, segment: string)
    requires TrimStart(segment) != []
    ensures TrimEnd(Glue(current, segment)) == TrimEnd(current) + Piece(segment)
  {
    var a := TrimEnd(current);
    var t := TrimStart(segment);
    var c := TrimEnd(t);
    assert c != [] by {
      assert t[0] != Slash;
      assert AllSlashes(t[|c|..]);
    }
    var g := Glue(current, segment);
    assert g == (a + [Slash]) + t;
    assert Piece(segment) == [Slash] + c;
    assert !AllSlashes(t);
    TrimEndAppend(a + [Slash], t);
    assert TrimEnd(g) == (a + [Slash]) + c;
    ConcatAssoc(a, [Slash], c);
  }

  /** The fold over one more segment is one more glue step. */
  lemma {:induction false} FoldSnoc(seed: string, segments: seq<string>, segment: string)
    ensures Fold(seed, segments + [segment]) == Glue(Fold(seed, segments), segment)
    decreases |segments|
  {
    if |segments| == 0 {
      assert [] + [segment] == [segment];
    } else {
      assert (segments + [segment])[1..] == segments[1..] + [segment];
      FoldSnoc(Glue(seed, segments[0]), segments[1..], segment);
    }
  }

  /** Once its trailing slashes are trimmed, the accumulator is the trimmed
      base followed by the pieces of the segments folded so far. */
  lemma {:induction false} TrimEndFold(seed: string, segments: seq<string>)
    ensures TrimEnd(Fold(seed, segments)) == TrimEnd(seed) + Pieces(segments)
    decreases |segments|
  {
    if |segments| > 0 {
      var init := Init(segments);
      assert segments == init + [Last(segments)];
      FoldSnoc(seed, init, Last(segments));
      TrimEndFold(seed, init);
      TrimEndGlue(Fold(seed, init), Last(segments));
      ConcatAssoc(TrimEnd(seed), Pieces(init), Piece(Last(segments)));
    }
  }

  lemma ConcatAssoc<T>(a: seq<T>, b: seq<T>, c: seq<T>)
    ensures a + b + c == a + (b + c)
  {
  }

  /** The fold equals its closed form, from any seed. */
  lemma FoldClosedForm(seed: string, segments: seq<string>)
    requires |segments| > 0
    ensures Fold(seed, segments) == Joined(seed, segments)
  {
    var init := Init(segments);
    var last := Last(segments);
    assert Fold(seed, segments) == Glue(Fold(seed, init), last) by {
      assert segments == init + [last];
      FoldSnoc(seed, init, last);
    }
    assert TrimEnd(Fold(seed, init)) == TrimEnd(seed) + Pieces(init) by {
      TrimEndFold(seed, init);
    }
  }

  /** Every joint of the result holds exactly one `/`: the result is the
      trimmed base, then one `/` before each non-empty inner core (a core
      has no slash at either end), then one `/` before the last segment
      without its leading slashes. */
  lemma JoinUriSegmentsClosedForm(uri: string, segments: seq<Option<string>>)
    requires !IsNullOrWhiteSpace(Some(uri))
    requires |segments| > 0 && NoNullElement(segments)
    ensures JoinUriSegments(Some(uri), Some(segments)) == Returned(Some(Joined(uri, Values(segments))))
  {
    FoldClosedForm(uri, Values(segments));
  }

  /** The result ends with the last segment minus its leading slashes, so its
      trailing slashes survive and an empty last segment leaves a trailing `/`. */
  lemma JoinEndsWithLastSegment(uri: string, segments: seq<Option<string>>)
    requires !IsNullOrWhiteSpace(Some(uri))
    requires |segments| > 0 && NoNullElement(segments)
    ensures var r := JoinUriSegments(Some(uri), Some(segments));
            var tail := [Slash] + TrimStart(segments[|segments| - 1].value);
            && r.Returned? && r.value.Some?
            && |tail| <= |r.value.value|
            && r.value.value[|r.value.value| - |tail|..] == tail
  {
    JoinUriSegmentsClosedForm(uri, segments);
    var vs := Values(segments);
    var head := TrimEnd(uri) + Pieces(Init(vs));
    var tail := [Slash] + TrimStart(Last(vs));
    ConcatAssoc(head, [Slash], TrimStart(Last(vs)));
    EndsWith(head, tail);
  }

  /** An empty (or slashes-only) last segment leaves a trailing `/`. */
  lemma JoinEmptyLastSegment(uri: string, segments: seq<Option<string>>)
    requires !IsNullOrWhiteSpace(Some(uri))
    requires |segments| > 0 && NoNullElement(segments)
    requires AllSlashes(segments[|segments| - 1].value)
    ensures var r := JoinUriSegments(Some(uri), Some(segments));
            && r.Returned? && r.value.Some? && |r.value.value| > 0
            && r.value.value[|r.value.value| - 1] == Slash
  {
    var last := segments[|segments| - 1].value;
    assert TrimStart(last) == [] by {
      assert last[|last| - |TrimStart(last)|..] == TrimStart(last);
    }
    JoinEndsWithLastSegment(uri, segments);
    var j := JoinUriSegments(Some(uri), Some(segments)).value.value;
    assert j[|j| - 1..] == [Slash];
    assert j[|j| - 1] == j[|j| - 1..][0];
  }

  lemma EndsWith<T>(head: seq<T>, tail: seq<T>)
    ensures (head + tail)[|head + tail| - |tail|..] == tail
  {
  }

  /** Slashes already present at a joint make no difference: adding any
      number of `/` to the end of the accumulator or to the start of a
      segment gives the same glue. */
  lemma GlueIgnoresExtraSlashes(current: string, segment: string, extra: string)
    requires AllSlashes(extra)
    ensures Glue(current + extra, segment) == Glue(current, segment)
    ensures Glue(current, extra + segment) == Glue(current, segment)
  {
    TrimEndAppend(current, extra);
    TrimStartPrepend(extra, segment);
  }

  lemma {:induction false} TrimStartPrepend(extra: string, s: string)
    requires AllSlashes(extra)
    ensures TrimStart(extra + s) == TrimStart(s)
    decreases |extra|
  {
    if |extra| > 0 {
      assert (extra + s)[1..] == extra[1..] + s;
      TrimStartPrepend(extra[1..], s);
    } else {
      assert extra + s == s;
    }
  }

  /** The worked example: ("http://h/", ["/a/", "b"]) joins to "http://h/a/b". */
  lemma JoinExample()
    ensures JoinUriSegments(Some("http://h/"), Some([Some("/a/"), Some("b")])) == Returned(Some("http://h/a/b"))
  {
    ExampleArguments();
    JoinIsFold("http://h/", [Some("/a/"), Some("b")]);
    ExampleFold();
  }

  lemma ExampleArguments()
    ensures !IsNullOrWhiteSpace(Some("http://h/"))
    ensures NoNullElement([Some("/a/"), Some("b")])
    ensures Values([Some("/a/"), Some("b")]) == ["/a/", "b"]
  {
    assert !IsWhiteSpace("http://h/"[0]);
  }

  lemma JoinIsFold(uri: string, segments: seq<Option<string>>)
    requires !IsNullOrWhiteSpace(Some(uri))
    requires |segments| > 0 && NoNullElement(segments)
    ensures JoinUriSegments(Some(uri), Some(segments)) == Returned(Some(Fold(uri, Values(segments))))
  {
  }

  lemma ExampleFold()
    ensures Fold("http://h/", ["/a/", "b"]) == "http://h/a/b"
  {
    assert ["/a/", "b"][1..] == ["b"];
    assert ["b"][1..] == [];
    ExampleTexts();
    GlueAtOneSlash("http://h", "a/", true);
    GlueAtOneSlash("http://h/a", "b", false);
  }

  lemma ExampleTexts()
    ensures "http://h/" == "http://h" + [Slash]
    ensures "/a/" == [Slash] + "a/"
    ensures "http://h" + [Slash] + "a/" == "http://h/a" + [Slash]
    ensures "http://h/a" + [Slash] + "b" == "http://h/a/b"
  {
  }

  /** Gluing where the accumulator ends in one `/` after a non-slash and the
      segment starts with at most one `/` before a non-slash. */
  lemma GlueAtOneSlash(current: string, segment: string, leading: bool)
    requires |current| > 0 && current[|current| - 1] != Slash
    requires |segment| > 0 && segment[0] != Slash
    ensures Glue(current + [Slash], if leading then [Slash] + segment else segment) == current + [Slash] + segment
  {
    assert (current + [Slash])[..|current|] == current;
    assert ([Slash] + segment)[1..] == segment;
  }
}
