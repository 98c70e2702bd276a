/**
 The "/"-separated group hierarchy.  Three pieces of code decide who is an ancestor of whom:
 the substr/length test inside every access query, the segment-wise validator, and
 `ancestorGroupIDs`; this module shows that they describe one partial order.
 */
module GroupPath {

  function Prepend(c: char, r: seq<string>): seq<string>
    requires r != []
  {
    if c == '/' then [""] + r else [[c] + r[0]] + r[1..]
  }

  /** `strings.Split(s, "/")`: always at least one segment. */
  function Split(s: string): (r: seq<string>)
    ensures |r| >= 1
  {
    if s == [] then [""] else Prepend(s[0], Split(s[1..]))
  }

  lemma PrependConcat(c: char, r: seq<string>, t: seq<string>)
    requires r != []
    ensures Prepend(c, r + t) == Prepend(c, r) + t
  {
    assert (r + t)[1..] == r[1..] + t;
  }

  /** `strings.Join(parts, "/")`. */
  function Join(parts: seq<string>): string {
    if parts == [] then ""
    else if |parts| == 1 then parts[0]
    else parts[0] + "/" + Join(parts[1..])
  }

  predicate Clean(parts: seq<string>) {
    forall i :: 0 <= i < |parts| ==> '/' !in parts[i]
  }

  lemma {:induction false} SplitClean(s: string)
    ensures Clean(Split(s))
  {
    if s != [] { SplitClean(s[1..]); }
  }

  /** Joining is a left inverse of splitting, on every string. */
  lemma {:induction false} JoinSplit(s: string)
    ensures Join(Split(s)) == s
  {
    if s != [] {
      var r := Split(s[1..]);
      JoinSplit(s[1..]);
      assert s == [s[0]] + s[1..];
      if s[0] == '/' {
        assert ([""] + r)[1..] == r;
      } else {
        assert ([[s[0]] + r[0]] + r[1..])[1..] == r[1..];
      }
    }
  }

  lemma {:induction false} SplitWord(w: string)
    requires '/' !in w
    ensures Split(w) == [w]
  {
    if w != [] {
      SplitWord(w[1..]);
      assert w == [w[0]] + w[1..];
    }
  }

  lemma {:induction false} SplitConcat(a: string, b: string)
    ensures Split(a + "/" + b) == Split(a) + Split(b)
  {
    if a == [] {
      assert a + "/" + b == "/" + b;
      assert ("/" + b)[1..] == b;
    } else {
      SplitConcat(a[1..], b);
      assert (a + "/" + b)[1..] == a[1..] + "/" + b;
      assert (a + "/" + b)[0] == a[0];
      PrependConcat(a[0], Split(a[1..]), Split(b));
    }
  }

  /** And splitting is a left inverse of joining on non-empty lists of slash-free segments. */
  lemma {:induction false} SplitJoin(parts: seq<string>)
    requires Clean(parts) && parts != []
    ensures Split(Join(parts)) == parts
  {
    SplitWord(parts[0]);
    if |parts| > 1 {
      SplitJoin(parts[1..]);
      SplitConcat(parts[0], Join(parts[1..]));
      assert parts == [parts[0]] + parts[1..];
    }
  }

  lemma {:induction false} JoinConcat(a: seq<string>, b: seq<string>)
    requires a != [] && b != []
    ensures Join(a + b) == Join(a) + "/" + Join(b)
  {
    assert (a + b)[1..] == a[1..] + b;
    if |a| == 1 {
      assert a[1..] + b == b;
    } else {
      JoinConcat(a[1..], b);
      assert a[0] + "/" + (Join(a[1..]) + "/" + Join(b)) == (a[0] + "/" + Join(a[1..])) + "/" + Join(b);
    }
  }

  /** The segment list with its last segment extended. */
  function AppendToLast(parts: seq<string>, tail: string): seq<string>
    requires parts != []
  {
    parts[..|parts| - 1] + [parts[|parts| - 1] + tail]
  }

  lemma PrependThenAppend(c: char, parts: seq<string>, tail: string)
    requires parts != []
    ensures Prepend(c, AppendToLast(parts, tail)) == AppendToLast(Prepend(c, parts), tail)
  {
    if c != '/' && |parts| == 1 {
      assert [c] + (parts[0] + tail) == ([c] + parts[0]) + tail;
    }
  }

  lemma {:induction false} SplitAppend(s: string, tail: string)
    requires '/' !in tail
    ensures Split(s + tail) == AppendToLast(Split(s), tail)
  {
    if s == [] {
      SplitWord(tail);
      assert s + tail == tail && "" + tail == tail;
    } else {
      SplitAppend(s[1..], tail);
      assert (s + tail)[0] == s[0] && (s + tail)[1..] == s[1..] + tail;
      PrependThenAppend(s[0], Split(s[1..]), tail);
    }
  }

  // ----- Valid identifiers -----

  predicate IdChar(c: char) {
    'a' <= c <= 'z' || 'A' <= c <= 'Z' || '0' <= c <= '9' || c == '_' || c == '-'
  }

  predicate IdSegment(seg: string) {
    seg != "" && forall i :: 0 <= i < |seg| ==> IdChar(seg[i])
  }

  /** `validateGroupID` accepts. */
  predicate ValidGroupId(id: string) {
    id != "" && |id| <= 512 && forall i :: 0 <= i < |Split(id)| ==> IdSegment(Split(id)[i])
  }

  /** No empty segment: the slashes are neither at the ends nor next to each other. */
  predicate SlashesApart(id: string) {
    && id != "" && id[0] != '/' && id[|id| - 1] != '/'
    && forall i :: 0 <= i < |id| - 1 ==> !(id[i] == '/' && id[i + 1] == '/')
  }

  predicate AllSegments(parts: seq<string>) { forall i :: 0 <= i < |parts| ==> IdSegment(parts[i]) }

  /** Letters, digits, underscores, hyphens and slashes of ASCII. */
  predicate PathChars(s: string) {
    forall i :: 0 <= i < |s| ==>
      'a' <= s[i] <= 'z' || 'A' <= s[i] <= 'Z' || '0' <= s[i] <= '9' || s[i] == '_' || s[i] == '-' || s[i] == '/'
  }

  /** The segment-wise test, character by character. */
  lemma {:induction false} SegmentsIff(s: string)
    ensures AllSegments(Split(s)) <==> SlashesApart(s) && PathChars(s)
    decreases |s|
  {
    if s == [] || s[0] == '/' {
      assert Split(s)[0] == "";
    } else if |s| == 1 {
      assert s == [s[0]] && Split(s[1..]) == [""];
      assert [s[0]] + "" == [s[0]] && Split(s) == Prepend(s[0], [""]);
      AllSegmentsCons([s[0]], []);
    } else {
      SegmentsIff(s[1..]);
      CharsStep(s);
      if s[1] == '/' {
        SegmentsIff(s[2..]);
        CharsStep(s[1..]);
        ShortFirstSegment(s);
        assert s[1..][1..] == s[2..];
      } else {
        LongFirstSegment(s);
      }
    }
  }

  lemma CharsStep(s: string)
    requires s != []
    ensures PathChars(s) <==> (IdChar(s[0]) || s[0] == '/') && PathChars(s[1..])
  {
    assert s == [s[0]] + s[1..];
  }

  lemma ShortFirstSegment(s: string)
    requires |s| > 1 && s[0] != '/' && s[1] == '/'
    ensures AllSegments(Split(s)) <==> IdChar(s[0]) && AllSegments(Split(s[2..]))
    ensures SlashesApart(s) <==> SlashesApart(s[2..])
  {
    var w := [s[0]];
    assert s == w + "/" + s[2..];
    SplitWord(w);
    SplitConcat(w, s[2..]);
    AllSegmentsCons(w, Split(s[2..]));
    SlashAfterFirst(s);
  }

  lemma SlashAfterFirst(s: string)
    requires |s| > 1 && s[0] != '/' && s[1] == '/'
    ensures SlashesApart(s) <==> SlashesApart(s[2..])
  {
    var t := s[2..];
    assert forall i :: 0 <= i < |t| ==> t[i] == s[i + 2];
    if SlashesApart(t) {
      forall i | 0 <= i < |s| - 1 ensures !(s[i] == '/' && s[i + 1] == '/') {
        if i >= 2 { assert s[i] == t[i - 2] && s[i + 1] == t[i - 1]; }
      }
    }
  }

  lemma LongFirstSegment(s: string)
    requires |s| > 1 && s[0] != '/' && s[1] != '/'
    ensures AllSegments(Split(s)) <==> IdChar(s[0]) && AllSegments(Split(s[1..]))
    ensures SlashesApart(s) <==> SlashesApart(s[1..])
  {
    var p := Split(s[1..]);
    var first := [s[0]] + p[0];
    assert s[1..][0] == s[1];
    assert p[0] != "";
    assert IdSegment(first) <==> IdChar(s[0]) && IdSegment(p[0]) by {
      assert forall j :: 0 <= j < |p[0]| ==> first[j + 1] == p[0][j];
      assert first[0] == s[0];
    }
    assert p == [p[0]] + p[1..];
    AllSegmentsCons(first, p[1..]);
    AllSegmentsCons(p[0], p[1..]);
    assert forall i :: 0 <= i < |s| - 1 ==> s[1..][i] == s[i + 1];
    if SlashesApart(s[1..]) {
      forall i | 0 <= i < |s| - 1 ensures !(s[i] == '/' && s[i + 1] == '/') {
        if i >= 1 { assert s[i] == s[1..][i - 1] && s[i + 1] == s[1..][i]; }
      }
    }
  }

  lemma AllSegmentsCons(w: string, parts: seq<string>)
    ensures AllSegments([w] + parts) <==> IdSegment(w) && AllSegments(parts)
  {
    var q := [w] + parts;
    assert forall i :: 0 <= i < |parts| ==> q[i + 1] == parts[i];
    assert q[0] == w;
  }

  /** Which ids `validateGroupID` accepts. */
  lemma ValidIff(id: string)
    ensures ValidGroupId(id) <==> |id| <= 512 && SlashesApart(id) && PathChars(id)
  {
    SegmentsIff(id);
  }


  // ----- The three notions -----

  /** SQL `substr(s, 1, n)`. */
  function Substr(s: string, n: nat): string {
    if |s| <= n then s else s[..n]
  }

  /** The join condition of the access queries. */
  predicate DescendantOrSelf(child: string, parent: string) {
    child == parent || Substr(child, |parent| + 1) == parent + "/"
  }

  predicate SegmentPrefix(parent: string, child: string) {
    Split(parent) <= Split(child)
  }

  /** The running prefixes a segment list generates, root first. */
  function Prefixes(parts: seq<string>): seq<string> {
    seq(|parts|, k requires 0 <= k < |parts| => Join(parts[..k + 1]))
  }

  function NonEmpty(parts: seq<string>): seq<string> {
    if parts == [] then []
    else (if parts[0] == "" then [] else [parts[0]]) + NonEmpty(parts[1..])
  }

  /** `strings.Trim(s, "/")`. */
  function TrimSlashes(s: string): string
    decreases |s|
  {
    if s != [] && s[0] == '/' then TrimSlashes(s[1..])
    else if s != [] && s[|s| - 1] == '/' then TrimSlashes(s[..|s| - 1])
    else s
  }

  method TrimSlashesLoop(s: string) returns (r: string)
    ensures r == TrimSlashes(s)
  {
    r := s;
    while r != [] && r[0] == '/'
      invariant TrimSlashes(r) == TrimSlashes(s)
      decreases |r|
    {
      r := r[1..];
    }
    while r != [] && r[|r| - 1] == '/'
      invariant TrimSlashes(r) == TrimSlashes(s) && (r != [] ==> r[0] != '/')
      decreases |r|
    {
      r := r[..|r| - 1];
    }
  }

  /** `ancestorGroupIDs`, for any string: empty segments are skipped. */
  method AncestorGroupIDs(groupID: string) returns (out: seq<string>)
    ensures out == Prefixes(NonEmpty(Split(TrimSlashes(groupID))))
  {
    var trimmed := TrimSlashesLoop(groupID);
    var parts := Split(trimmed);
    out := [];
    ghost var kept: seq<string> := [];
    var acc := "";
    var i := 0;
    while i < |parts|
      invariant 0 <= i <= |parts|
      invariant kept == NonEmpty(parts[..i])
      invariant acc == Join(kept) && out == Prefixes(kept)
    {
      var p := parts[i];
      assert parts[..i + 1] == parts[..i] + [p];
      NonEmptySnoc(parts[..i], p);
      if p != "" {
        ExtendPrefixes(kept, p);
        JoinEmpty(kept);
        if acc == "" { acc := p; } else { acc := acc + "/" + p; }
        out := out + [acc];
        kept := kept + [p];
      }
      i := i + 1;
    }
    assert parts[..i] == parts;
  }

  lemma {:induction false} NonEmptySnoc(parts: seq<string>, p: string)
    ensures NonEmpty(parts + [p]) == if p == "" then NonEmpty(parts) else NonEmpty(parts) + [p]
    ensures "" !in NonEmpty(parts)
  {
    if parts == [] {
      assert parts + [p] == [p] && [p][1..] == [];
    } else {
      NonEmptySnoc(parts[1..], p);
      assert (parts + [p])[0] == parts[0] && (parts + [p])[1..] == parts[1..] + [p];
    }
  }

  lemma JoinEmpty(parts: seq<string>)
    requires "" !in parts
    ensures Join(parts) == "" <==> parts == []
  {
    if parts != [] { assert parts[0] in parts; }
  }

  lemma ExtendPrefixes(kept: seq<string>, p: string)
    ensures Join(kept + [p]) == if kept == [] then p else Join(kept) + "/" + p
    ensures Prefixes(kept + [p]) == Prefixes(kept) + [Join(kept + [p])]
  {
    if kept == [] {
      assert kept + [p] == [p];
    } else {
      JoinConcat(kept, [p]);
    }
    var all := kept + [p];
    forall k | 0 <= k < |kept| ensures Prefixes(all)[k] == Prefixes(kept)[k] {
      assert all[..k + 1] == kept[..k + 1];
    }
    assert all[..|all|] == all;
  }

  // ----- Equivalence -----

  lemma BelowSplits(child: string, parent: string)
    requires DescendantOrSelf(child, parent) && child != parent
    ensures SegmentPrefix(parent, child)
  {
    var rest := child[|parent| + 1..];
    assert child == parent + "/" + rest;
    SplitConcat(parent, rest);
  }

  lemma SplitsBelow(child: string, parent: string)
    requires SegmentPrefix(parent, child)
    ensures DescendantOrSelf(child, parent)
  {
    var p, c := Split(parent), Split(child);
    JoinSplit(parent);
    JoinSplit(child);
    if |p| == |c| {
      assert p == c;
    } else {
      var rest := c[|p|..];
      assert c == p + rest;
      JoinConcat(p, rest);
      assert child == parent + "/" + Join(rest);
      assert child[..|parent| + 1] == parent + "/";
    }
  }

  /** The character test and the segment test agree on all strings. */
  lemma DescendantIffSegments(child: string, parent: string)
    ensures DescendantOrSelf(child, parent) <==> SegmentPrefix(parent, child)
  {
    if DescendantOrSelf(child, parent) && child != parent { BelowSplits(child, parent); }
    if SegmentPrefix(parent, child) { SplitsBelow(child, parent); }
  }

  /** On a valid group ID nothing is trimmed or skipped. */
  lemma ValidIsNormal(id: string)
    requires ValidGroupId(id)
    ensures NonEmpty(Split(TrimSlashes(id))) == Split(id)
  {
    var parts := Split(id);
    SplitClean(id);
    JoinSplit(id);
    NoEdgeSlash(parts);
    AllNonEmpty(parts);
  }

  lemma {:induction false} NoEdgeSlash(parts: seq<string>)
    requires Clean(parts) && parts != [] && "" !in parts
    ensures var s := Join(parts); s != "" && s[0] != '/' && s[|s| - 1] != '/'
  {
    var w := parts[0];
    assert w in parts && w[0] in w && w[|w| - 1] in w;
    if |parts| > 1 { NoEdgeSlash(parts[1..]); }
  }

  lemma {:induction false} AllNonEmpty(parts: seq<string>)
    requires "" !in parts
    ensures NonEmpty(parts) == parts
  {
    if parts != [] {
      AllNonEmpty(parts[1..]);
      assert parts == [parts[0]] + parts[1..];
    }
  }

  /** What `ancestorGroupIDs` returns. */
  function AncestorsOf(id: string): seq<string> {
    Prefixes(NonEmpty(Split(TrimSlashes(id))))
  }

  /** A segment prefix is the join of some initial segments. */
  lemma PrefixIffJoin(child: string, parent: string)
    ensures SegmentPrefix(parent, child) <==> parent in Prefixes(Split(child))
  {
    var c := Split(child);
    SplitClean(child);
    if SegmentPrefix(parent, child) {
      var k := |Split(parent)| - 1;
      JoinSplit(parent);
      assert c[..k + 1] == Split(parent);
      assert Prefixes(c)[k] == parent;
    }
    if parent in Prefixes(c) {
      var k :| 0 <= k < |c| && Prefixes(c)[k] == parent;
      SplitJoin(c[..k + 1]);
    }
  }

  /** All three tests agree on valid child IDs, whatever the would-be parent is. */
  lemma HierarchyEquivalence(child: string, parent: string)
    requires ValidGroupId(child)
    ensures DescendantOrSelf(child, parent) <==> SegmentPrefix(parent, child)
    ensures SegmentPrefix(parent, child) <==> parent in AncestorsOf(child)
  {
    DescendantIffSegments(child, parent);
    ValidIsNormal(child);
    PrefixIffJoin(child, parent);
  }

  /** Ancestors of a valid ID are valid. */
  lemma AncestorsValid(child: string, parent: string)
    requires ValidGroupId(child) && DescendantOrSelf(child, parent)
    ensures ValidGroupId(parent)
  {
    DescendantIffSegments(child, parent);
    JoinSplit(parent);
    assert forall i :: 0 <= i < |Split(parent)| ==> Split(parent)[i] == Split(child)[i];
    assert Split(parent)[0] == Split(child)[0];
  }

  /** The hierarchy is a partial order. */
  lemma HierarchyIsPartialOrder(a: string, b: string, c: string)
    ensures DescendantOrSelf(a, a)
    ensures DescendantOrSelf(a, b) && DescendantOrSelf(b, a) ==> a == b
    ensures DescendantOrSelf(a, b) && DescendantOrSelf(b, c) ==> DescendantOrSelf(a, c)
  {
    DescendantIffSegments(a, b);
    DescendantIffSegments(b, a);
    DescendantIffSegments(b, c);
    DescendantIffSegments(a, c);
    JoinSplit(a);
    JoinSplit(b);
  }

  /** The ancestors of one group form a chain: of two ancestors, one is above the other. */
  lemma AncestorsFormChain(child: string, p: string, q: string)
    requires DescendantOrSelf(child, p) && DescendantOrSelf(child, q)
    ensures DescendantOrSelf(p, q) || DescendantOrSelf(q, p)
  {
    DescendantIffSegments(child, p);
    DescendantIffSegments(child, q);
    DescendantIffSegments(p, q);
    DescendantIffSegments(q, p);
  }
}
