/** The fragment parser: `location.hash` minus its first character,
    scanned with the global regular expression `([^&=]+)=([^&]*)`; each
    match contributes one key/value pair, both URI-decoded, and a later
    pair overwrites an earlier one with the same key. */
module Fragment {
  import opened Js
  import opened Text

  /** Characters that end a key: the complement of `[^&=]`. */
  const KeyStops: set<char> := {'&', '='}

  /** Characters that end a value: the complement of `[^&]`. */
  const ValueStops: set<char> := {'&'}

  /** A pair the pattern can produce: a non-empty key without '&' or '=',
      and a value without '&'. */
  predicate WellFormed(kv: (string, string))
  {
    |kv.0| > 0 && Free(kv.0, KeyStops) && Free(kv.1, ValueStops)
  }

  /** One match: the key is s[start..eq], s[eq] is '=', the value is
      s[eq + 1..end]. */
  datatype Hit = Hit(start: nat, eq: nat, end: nat)

  /** The match anchored at `p`, if any. The greedy `[^&=]+` takes the
      whole run of key characters; giving characters back cannot help,
      because the character after a shorter run is a key character and
      never '='. The greedy `[^&]*` then takes the value up to the next
      '&' or the end. */
  function MatchAt(s: string, p: nat): (m: Option<Hit>)
    requires p <= |s|
    ensures m.Some? ==> m.value.start == p < m.value.eq < m.value.end <= |s|
    ensures m.Some? ==> s[m.value.eq] == '='
    ensures m.Some? ==> forall k :: p <= k < m.value.eq ==> s[k] !in KeyStops
    ensures m.Some? ==> forall k :: m.value.eq < k < m.value.end ==> s[k] !in ValueStops
  {
    if p < |s| && s[p] !in KeyStops then
      var q := RunEnd(s, p, KeyStops);
      if q < |s| && s[q] == '=' then Some(Hit(p, q, RunEnd(s, q + 1, ValueStops)))
      else None
    else None
  }

  /** The pairs `regex.exec` returns when `lastIndex` starts at `p`: each
      call searches for the leftmost match at or after `lastIndex` and
      continues from the end of that match; the first failing call ends
      the loop. */
  function ScanFrom(s: string, p: nat): (ps: seq<(string, string)>)
    requires p <= |s|
    ensures forall i :: 0 <= i < |ps| ==> WellFormed(ps[i])
    decreases |s| - p
  {
    if p == |s| then []
    else
      match MatchAt(s, p)
      case Some(h) => [(s[h.start..h.eq], s[h.eq + 1..h.end])] + ScanFrom(s, h.end)
      case None => ScanFrom(s, p + 1)
  }

  /** All pairs of the text after '#', in the order they are found. */
  function Scan(s: string): seq<(string, string)>
  {
    ScanFrom(s, 0)
  }

  /** `queryString = location.hash.substring(1)`. */
  function FragmentText(hash: string): (r: string)
    ensures |hash| == 0 ==> r == ""
    ensures |hash| > 0 ==> [hash[0]] + r == hash
  {
    if |hash| == 0 then "" else hash[1..]
  }

  /** `params[decode(k)] = decode(v)` for each pair in order. */
  function ToMap(ps: seq<(string, string)>, decode: string -> string): (m: map<string, string>)
    ensures forall i :: 0 <= i < |ps| ==> decode(ps[i].0) in m
    ensures forall k :: k in m ==> exists i :: 0 <= i < |ps| && decode(ps[i].0) == k
    decreases |ps|
  {
    if ps == [] then map[]
    else
      var last := ps[|ps| - 1];
      ToMap(ps[..|ps| - 1], decode)[decode(last.0) := decode(last.1)]
  }

  /** `parseFragment()`: the key/value mapping carried by `location.hash`. */
  function Parse(hash: string, decode: string -> string): (m: map<string, string>)
    ensures |hash| <= 1 ==> m == map[]
    ensures forall k :: k in m ==>
      exists i :: 0 <= i < |Scan(FragmentText(hash))| && decode(Scan(FragmentText(hash))[i].0) == k
  {
    ToMap(Scan(FragmentText(hash)), decode)
  }

  /** A later pair overwrites an earlier one: the value stored for a key
      is the decoded value of the LAST pair whose key decodes to it. */
  lemma {:induction false} LastWins(ps: seq<(string, string)>, decode: string -> string, i: nat)
    requires i < |ps|
    requires forall j :: i < j < |ps| ==> decode(ps[j].0) != decode(ps[i].0)
    ensures decode(ps[i].0) in ToMap(ps, decode)
    ensures ToMap(ps, decode)[decode(ps[i].0)] == decode(ps[i].1)
    decreases |ps|
  {
    if i < |ps| - 1 {
      var init := ps[..|ps| - 1];
      assert init[i] == ps[i];
      forall j | i < j < |init|
        ensures decode(init[j].0) != decode(init[i].0)
      {
        assert init[j] == ps[j];
      }
      LastWins(init, decode, i);
    }
  }

  // ---------------------------------------------------------------------
  // Reference reading: split the text at every '&' and read each segment
  // on its own.

  /** End of the run of '=' characters starting at `i`: the first index
      at or after `i` holding another character, or `|s|`. */
  function EqsEnd(s: string, i: nat): (j: nat)
    requires i <= |s|
    ensures i <= j <= |s|
    ensures forall k :: i <= k < j ==> s[k] == '='
    ensures j < |s| ==> s[j] != '='
    decreases |s| - i
  {
    if i < |s| && s[i] == '=' then EqsEnd(s, i + 1) else i
  }

  /** What one '&'-free segment contributes: after its leading '='
      characters, the text up to the first '=' is the key and everything
      after that '=' is the value; a segment with no '=' left gives
      nothing. */
  function SegmentPair(seg: string): seq<(string, string)>
  {
    var n := EqsEnd(seg, 0);
    var i := RunEnd(seg, n, {'='});
    if i < |seg| then [(seg[n..i], seg[i + 1..])] else []
  }

  /** The '&'-separated segments of s[p..]: each runs from its start to
      the next '&' or the end. */
  function Segments(s: string, p: nat): seq<string>
    requires p <= |s|
    decreases |s| - p
  {
    var e := RunEnd(s, p, ValueStops);
    if e < |s| then [s[p..e]] + Segments(s, e + 1) else [s[p..e]]
  }

  /** The pairs a list of segments contributes, in order. */
  function PairsOf(segs: seq<string>): seq<(string, string)>
  {
    if segs == [] then [] else SegmentPair(segs[0]) + PairsOf(segs[1..])
  }

  /** The pairs of `s` read segment by segment. */
  function SplitPairs(s: string): seq<(string, string)>
  {
    PairsOf(Segments(s, 0))
  }

  // ---------------------------------------------------------------------
  // The regex scan is the split reading.

  /** Positions where nothing matches are skipped one by one. */
  lemma {:induction false} SkipNoHit(s: string, a: nat, b: nat)
    requires a <= b <= |s|
    requires forall k :: a <= k < b ==> MatchAt(s, k).None?
    ensures ScanFrom(s, a) == ScanFrom(s, b)
    decreases b - a
  {
    if a < b {
      assert MatchAt(s, a).None?;
      SkipNoHit(s, a + 1, b);
    }
  }

  /** The '=' characters that open a segment never start a match. */
  lemma SkipEqs(s: string, p: nat, a: nat)
    requires p <= a <= |s|
    requires forall k :: p <= k < a ==> s[k] == '='
    ensures ScanFrom(s, p) == ScanFrom(s, a)
  {
    SkipNoHit(s, p, a);
  }

  /** The '&' that ends a segment never starts a match. */
  lemma ScanAtAmpersand(s: string, e: nat)
    requires e < |s| && s[e] == '&'
    ensures ScanFrom(s, e) == ScanFrom(s, e + 1)
  {
    assert MatchAt(s, e).None?;
  }

  /** The match that starts at a key character and runs over the first
      '=' at q up to the '&' or the end at e. */
  lemma MatchOfKeyValue(s: string, a: nat, q: nat, e: nat)
    requires a < q < e <= |s|
    requires forall k :: a <= k < q ==> s[k] != '=' && s[k] != '&'
    requires s[q] == '='
    requires forall k :: q < k < e ==> s[k] != '&'
    requires e == |s| || s[e] == '&'
    ensures MatchAt(s, a) == Some(Hit(a, q, e))
  {
    RunEndUnique(s, a, KeyStops, q);
    RunEndUnique(s, q + 1, ValueStops, e);
  }

  /** A segment rest s[a..e] that starts with a key character and holds
      its first '=' at q is one match ending at e. */
  lemma ScanKeyValue(s: string, a: nat, q: nat, e: nat)
    requires a < q < e <= |s|
    requires forall k :: a <= k < q ==> s[k] != '=' && s[k] != '&'
    requires s[q] == '='
    requires forall k :: q < k < e ==> s[k] != '&'
    requires e == |s| || s[e] == '&'
    ensures ScanFrom(s, a) == [(s[a..q], s[q + 1..e])] + ScanFrom(s, e)
  {
    MatchOfKeyValue(s, a, q, e);
  }

  /** A segment rest s[a..e] with no '=' (and no '&') holds no match. */
  lemma ScanNoEq(s: string, a: nat, e: nat)
    requires a <= e <= |s|
    requires forall k :: a <= k < e ==> s[k] != '=' && s[k] != '&'
    requires e == |s| || s[e] == '&'
    ensures ScanFrom(s, a) == ScanFrom(s, e)
  {
    forall k | a <= k < e
      ensures MatchAt(s, k).None?
    {
      RunEndUnique(s, k, KeyStops, e);
    }
    SkipNoHit(s, a, e);
  }

  /** The shape of one segment s[p..e], in positions of s: '=' up to a,
      then a key run up to q, then (when q < e) '=' and the value. */
  lemma SegmentShape(s: string, p: nat, e: nat) returns (a: nat, q: nat)
    requires p <= e <= |s|
    ensures p <= a <= q <= e
    ensures forall k :: p <= k < a ==> s[k] == '='
    ensures a < e ==> s[a] != '='
    ensures forall k :: a <= k < q ==> s[k] != '='
    ensures q < e ==> s[q] == '='
    ensures q < e ==> SegmentPair(s[p..e]) == [(s[a..q], s[q + 1..e])]
    ensures q == e ==> SegmentPair(s[p..e]) == []
  {
    var seg := s[p..e];
    var n := EqsEnd(seg, 0);
    var i := RunEnd(seg, n, {'='});
    a, q := p + n, p + i;
    SegmentPositions(s, p, e, n, i);
    if i < |seg| {
      assert seg[n..i] == s[a..q];
      assert seg[i + 1..] == s[q + 1..e];
    }
  }

  /** Facts about s[p..e] carried over to positions of s. */
  lemma SegmentPositions(s: string, p: nat, e: nat, n: nat, i: nat)
    requires p <= e <= |s|
    requires n == EqsEnd(s[p..e], 0)
    requires i == RunEnd(s[p..e], n, {'='})
    ensures forall k :: p <= k < p + n ==> s[k] == '='
    ensures p + n < e ==> s[p + n] != '='
    ensures forall k :: p + n <= k < p + i ==> s[k] != '='
    ensures p + i < e ==> s[p + i] == '='
  {
    var seg := s[p..e];
    forall k | p <= k < p + i
      ensures s[k] == seg[k - p]
    {
    }
  }

  /** The scan across one segment s[p..e] (no '&' inside, '&' or the end
      at e) yields exactly what the segment contributes, then continues
      after the '&'. */
  lemma ScanSegment(s: string, p: nat, e: nat)
    requires p <= e <= |s|
    requires forall k :: p <= k < e ==> s[k] != '&'
    requires e == |s| || s[e] == '&'
    ensures e < |s| ==> ScanFrom(s, p) == SegmentPair(s[p..e]) + ScanFrom(s, e + 1)
    ensures e == |s| ==> ScanFrom(s, p) == SegmentPair(s[p..e])
  {
    var a, q := SegmentShape(s, p, e);
    SkipEqs(s, p, a);
    if e < |s| {
      ScanAtAmpersand(s, e);
    }
    if q < e {
      ScanKeyValue(s, a, q, e);
    } else {
      ScanNoEq(s, a, e);
    }
  }

  /** From any position, the regex scan and the split reading of the rest
      agree. */
  lemma {:induction false} ScanFromIsSplit(s: string, p: nat)
    requires p <= |s|
    ensures ScanFrom(s, p) == PairsOf(Segments(s, p))
    decreases |s| - p
  {
    var e := RunEnd(s, p, ValueStops);
    if e < |s| {
      ScanFromIsSplit(s, e + 1);
      ScanStepCase(s, p, e);
    } else {
      ScanLastCase(s, p, e);
    }
  }

  /** The inductive step: one segment, then the rest as already read. */
  lemma ScanStepCase(s: string, p: nat, e: nat)
    requires p <= e < |s| && e == RunEnd(s, p, ValueStops)
    requires ScanFrom(s, e + 1) == PairsOf(Segments(s, e + 1))
    ensures ScanFrom(s, p) == PairsOf(Segments(s, p))
  {
    ScanSegment(s, p, e);
    SegmentsStep(s, p, e, e + 1);
    ReadingStep(ScanFrom(s, p), Segments(s, p), s[p..e], ScanFrom(s, e + 1), Segments(s, e + 1));
  }

  /** The last segment. */
  lemma ScanLastCase(s: string, p: nat, e: nat)
    requires p <= e == |s| && e == RunEnd(s, p, ValueStops)
    ensures ScanFrom(s, p) == PairsOf(Segments(s, p))
  {
    ScanSegment(s, p, e);
    SegmentsLast(s, p, e);
    ReadingStep(ScanFrom(s, p), Segments(s, p), s[p..e], [], []);
  }

  /** One segment more on both readings.
      A separate proof step: it keeps the proofs that use it cheap. */
  lemma ReadingStep(scan: seq<(string, string)>, segs: seq<string>, seg: string,
                    restScan: seq<(string, string)>, restSegs: seq<string>)
    requires scan == SegmentPair(seg) + restScan
    requires segs == [seg] + restSegs
    requires restScan == PairsOf(restSegs)
    ensures scan == PairsOf(segs)
  {
    PairsOfCons(seg, restSegs);
  }

  /** One step of the segment split.
      A separate proof step: it keeps the proofs that use it cheap. */
  lemma SegmentsStep(s: string, p: nat, e: nat, next: nat)
    requires p <= e < |s| && next == e + 1
    requires e == RunEnd(s, p, ValueStops)
    ensures Segments(s, p) == [s[p..e]] + Segments(s, next)
  {
  }

  /** The last step of the segment split: no '&' is left. The `+ []`
      matches the shape `ConsCongruence` and `ReadingStep` expect.
      A separate proof step: it keeps the proofs that use it cheap. */
  lemma SegmentsLast(s: string, p: nat, e: nat)
    requires p <= e == |s|
    requires e == RunEnd(s, p, ValueStops)
    ensures Segments(s, p) == [s[p..e]] + []
  {
  }

  /** The pairs of a segment list with a first segment.
      A separate proof step: it keeps the proofs that use it cheap. */
  lemma PairsOfCons(seg: string, rest: seq<string>)
    ensures PairsOf([seg] + rest) == SegmentPair(seg) + PairsOf(rest)
  {
    assert ([seg] + rest)[1..] == rest;
  }

  /** The regex scan of a fragment is the split reading: split at every
      '&'; a segment with no '=' after its leading '=' characters gives
      nothing; any other gives (text up to the first '=', the rest). */
  lemma ScanIsSplit(s: string)
    ensures Scan(s) == SplitPairs(s)
  {
    ScanFromIsSplit(s, 0);
  }

  /** A segment without '=' contributes nothing. */
  lemma SegmentWithoutEqIsIgnored(seg: string)
    requires forall k :: 0 <= k < |seg| ==> seg[k] != '='
    ensures SegmentPair(seg) == []
  {
    RunEndUnique(seg, EqsEnd(seg, 0), {'='}, |seg|);
  }

  // ---------------------------------------------------------------------
  // Writing pairs and reading them back.

  /** `k1=v1&k2=v2&...`, the shape of a query string or a fragment. */
  function Join(ps: seq<(string, string)>): string
    decreases |ps|
  {
    if ps == [] then ""
    else if |ps| == 1 then ps[0].0 + "=" + ps[0].1
    else ps[0].0 + "=" + ps[0].1 + "&" + Join(ps[1..])
  }

  /** A well-formed `k=v` segment reads back as itself. */
  lemma SegmentOfPair(k: string, v: string)
    requires WellFormed((k, v))
    ensures SegmentPair(k + "=" + v) == [(k, v)]
  {
    var seg := k + "=" + v;
    assert seg[0] == k[0] != '=';
    assert EqsEnd(seg, 0) == 0;
    forall j | 0 <= j < |k|
      ensures seg[j] !in {'='}
    {
      assert seg[j] == k[j];
    }
    RunEndUnique(seg, 0, {'='}, |k|);
    assert seg[..|k|] == k;
    assert seg[|k| + 1..] == v;
  }

  /** A well-formed `k=v` segment holds no '&'. */
  lemma PairSegmentFree(k: string, v: string)
    requires WellFormed((k, v))
    ensures Free(k + "=" + v, ValueStops)
  {
    var seg := k + "=" + v;
    forall j | 0 <= j < |seg|
      ensures seg[j] !in ValueStops
    {
      if j < |k| {
        assert seg[j] == k[j];
      } else if j > |k| {
        assert seg[j] == v[j - |k| - 1];
      }
    }
  }

  /** `s` from `p` on and `t` from `q` on are the same text. */
  predicate SameFrom(s: string, p: nat, t: string, q: nat)
  {
    p <= |s| && q <= |t| && |s| - p == |t| - q
    && forall k :: p <= k < |s| ==> s[k] == t[k - p + q]
  }

  /** The segment split depends only on the text from its starting point
      on. */
  lemma {:induction false} SegmentsSuffix(s: string, p: nat, t: string, q: nat)
    requires SameFrom(s, p, t, q)
    ensures Segments(s, p) == Segments(t, q)
    decreases |t| - q
  {
    var e := RunEnd(s, p, ValueStops);
    var d := RunEnd(t, q, ValueStops);
    RunEndSuffix(s, p, t, q, ValueStops);
    if e < |s| {
      NextSuffix(s, p, e, t, q, d);
      SegmentsSuffix(s, e + 1, t, d + 1);
      SuffixStepCase(s, p, e, t, q, d);
    } else {
      SuffixLastCase(s, p, e, t, q, d);
    }
  }

  /** The inductive step: equal first segments, then equal rests. */
  lemma SuffixStepCase(s: string, p: nat, e: nat, t: string, q: nat, d: nat)
    requires SameFrom(s, p, t, q)
    requires e == RunEnd(s, p, ValueStops) && d == RunEnd(t, q, ValueStops)
    requires e < |s| && e - p == d - q
    requires Segments(s, e + 1) == Segments(t, d + 1)
    ensures Segments(s, p) == Segments(t, q)
  {
    SegmentSuffix(s, p, e, t, q, d);
    SegmentsStep(s, p, e, e + 1);
    SegmentsStep(t, q, d, d + 1);
    ConsCongruence(Segments(s, p), s[p..e], Segments(s, e + 1), Segments(t, q), t[q..d], Segments(t, d + 1));
  }

  /** The last segment. */
  lemma SuffixLastCase(s: string, p: nat, e: nat, t: string, q: nat, d: nat)
    requires SameFrom(s, p, t, q)
    requires e == RunEnd(s, p, ValueStops) && d == RunEnd(t, q, ValueStops)
    requires e == |s| && e - p == d - q
    ensures Segments(s, p) == Segments(t, q)
  {
    SegmentSuffix(s, p, e, t, q, d);
    SegmentsLast(s, p, e);
    SegmentsLast(t, q, d);
    ConsCongruence(Segments(s, p), s[p..e], [], Segments(t, q), t[q..d], []);
  }

  /** Lists built the same way from equal parts are equal.
      A separate proof step: it keeps the proofs that use it cheap. */
  lemma ConsCongruence(a: seq<string>, x: string, rest1: seq<string>,
                       b: seq<string>, y: string, rest2: seq<string>)
    requires a == [x] + rest1 && b == [y] + rest2
    requires x == y && rest1 == rest2
    ensures a == b
  {
  }

  /** Equal suffixes have run ends at the same distance from their starts. */
  lemma RunEndSuffix(s: string, p: nat, t: string, q: nat, stops: set<char>)
    requires SameFrom(s, p, t, q)
    ensures RunEnd(s, p, stops) - p == RunEnd(t, q, stops) - q
  {
    var d := RunEnd(t, q, stops);
    var e := p + (d - q);
    forall k | p <= k < e
      ensures s[k] !in stops
    {
      assert s[k] == t[k - p + q];
    }
    if e < |s| {
      assert s[e] == t[e - p + q];
    }
    RunEndUnique(s, p, stops, e);
  }

  /** The first segments of equal suffixes are equal. */
  lemma SegmentSuffix(s: string, p: nat, e: nat, t: string, q: nat, d: nat)
    requires SameFrom(s, p, t, q)
    requires p <= e <= |s| && q <= d <= |t| && e - p == d - q
    ensures s[p..e] == t[q..d]
  {
    forall i | 0 <= i < e - p
      ensures s[p..e][i] == t[q..d][i]
    {
      assert s[p + i] == t[p + i - p + q];
    }
  }

  /** Past the first '&', equal suffixes are still equal. */
  lemma NextSuffix(s: string, p: nat, e: nat, t: string, q: nat, d: nat)
    requires SameFrom(s, p, t, q)
    requires p <= e < |s| && q <= d < |t| && e - p == d - q
    ensures SameFrom(s, e + 1, t, d + 1)
  {
  }

  /** An '&'-free segment followed by '&' and more text: the segment, then
      the segments of the rest. */
  lemma SegmentsCons(seg: string, rest: string)
    requires Free(seg, ValueStops)
    ensures Segments(seg + "&" + rest, 0) == [seg] + Segments(rest, 0)
  {
    var x := seg + "&" + rest;
    forall k | 0 <= k < |seg|
      ensures x[k] !in ValueStops
    {
      assert x[k] == seg[k];
    }
    RunEndUnique(x, 0, ValueStops, |seg|);
    assert x[0..|seg|] == seg;
    forall k | |seg| + 1 <= k < |x|
      ensures x[k] == rest[k - (|seg| + 1) + 0]
    {
    }
    SegmentsStep(x, 0, |seg|, |seg| + 1);
    SegmentsSuffix(x, |seg| + 1, rest, 0);
  }

  /** An '&'-free text is one segment. */
  lemma SegmentsSingle(seg: string)
    requires Free(seg, ValueStops)
    ensures Segments(seg, 0) == [seg]
  {
    RunEndUnique(seg, 0, ValueStops, |seg|);
    assert seg[0..|seg|] == seg;
  }

  /** The `k=v` texts of a list of pairs. */
  function PairTexts(ps: seq<(string, string)>): (r: seq<string>)
    ensures |r| == |ps|
  {
    if ps == [] then [] else [ps[0].0 + "=" + ps[0].1] + PairTexts(ps[1..])
  }

  /** The segments of a non-empty join are the pairs' `k=v` texts. */
  lemma {:induction false} SegmentsOfJoin(ps: seq<(string, string)>)
    requires |ps| >= 1
    requires forall i :: 0 <= i < |ps| ==> WellFormed(ps[i])
    ensures Segments(Join(ps), 0) == PairTexts(ps)
    decreases |ps|
  {
    var k, v := ps[0].0, ps[0].1;
    assert WellFormed(ps[0]);
    PairSegmentFree(k, v);
    if |ps| == 1 {
      SegmentsSingle(k + "=" + v);
    } else {
      SegmentsCons(k + "=" + v, Join(ps[1..]));
      SegmentsOfJoin(ps[1..]);
    }
  }

  /** Each well-formed pair's text reads back as that pair. */
  lemma {:induction false} PairsOfTexts(ps: seq<(string, string)>)
    requires forall i :: 0 <= i < |ps| ==> WellFormed(ps[i])
    ensures PairsOf(PairTexts(ps)) == ps
    decreases |ps|
  {
    if ps != [] {
      assert WellFormed(ps[0]);
      SegmentOfPair(ps[0].0, ps[0].1);
      PairsOfCons(ps[0].0 + "=" + ps[0].1, PairTexts(ps[1..]));
      PairsOfTexts(ps[1..]);
    }
  }

  /** Splitting joined well-formed pairs gives them back. */
  lemma SplitJoin(ps: seq<(string, string)>)
    requires forall i :: 0 <= i < |ps| ==> WellFormed(ps[i])
    ensures SplitPairs(Join(ps)) == ps
  {
    if ps == [] {
      SegmentsSingle("");
      PairsOfCons("", []);
    } else {
      SegmentsOfJoin(ps);
      PairsOfTexts(ps);
    }
  }

  /** Round trip: scanning joined well-formed pairs gives back the same
      pairs, in order, with the same raw keys and values. */
  lemma ScanJoin(ps: seq<(string, string)>)
    requires forall i :: 0 <= i < |ps| ==> WellFormed(ps[i])
    ensures Scan(Join(ps)) == ps
  {
    ScanIsSplit(Join(ps));
    SplitJoin(ps);
  }

  /** Round trip at the level of `parseFragment`: the hash `#k1=v1&...`
      parses to the mapping built from its pairs. */
  lemma ParseJoin(ps: seq<(string, string)>, decode: string -> string)
    requires forall i :: 0 <= i < |ps| ==> WellFormed(ps[i])
    ensures Parse("#" + Join(ps), decode) == ToMap(ps, decode)
  {
    assert FragmentText("#" + Join(ps)) == Join(ps);
    ScanJoin(ps);
  }

  /** The identity decoding, for fragments with nothing percent-encoded. */
  function Verbatim(x: string): string { x }

  /** The hash `#a=1&b=two` parses to {a: "1", b: "two"}; the empty hash
      parses to the empty mapping. */
  lemma ParseExample()
    ensures Parse("#a=1&b=two", Verbatim) == map["a" := "1", "b" := "two"]
    ensures Parse("", Verbatim) == map[]
  {
    var ps := [("a", "1"), ("b", "two")];
    assert Join(ps) == "a=1&b=two";
    assert WellFormed(ps[0]) && WellFormed(ps[1]);
    ParseJoin(ps, Verbatim);
    assert ps[..1] == [("a", "1")];
    assert ToMap(ps[..1], Verbatim) == map["a" := "1"];
  }
}
