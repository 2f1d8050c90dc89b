/** The pure logic of the upload page: the `uniqueQrCodes` view of a
    video's results (one entry per content, the earliest sighting, in time
    order) and the client-side `validateFile` check. */
module UploadComponent {
  import opened Wrappers
  import opened Contracts
  import opened Sequences
  import VideoUpload
  import FileStorage

  type Detection = QrCodeDetectionResponse

  function Ts(d: Detection): real {
    d.timestampSeconds
  }

  /** The contents of `s`, in order. */
  function ContentList(s: seq<Detection>): (cs: seq<string>)
    ensures |cs| == |s|
    ensures forall i :: 0 <= i < |s| ==> cs[i] == s[i].content
  {
    seq(|s|, i requires 0 <= i < |s| => s[i].content)
  }

  /** The contents occurring among the first `n` entries of `ds`. */
  function ContentsUpTo(ds: seq<Detection>, n: nat): set<string>
    requires n <= |ds|
  {
    set j | 0 <= j < n :: ds[j].content
  }

  /** Position `k` is, among the first `n` entries, the first one holding
      the smallest timestamp seen for its content. */
  predicate EarliestAmong(ds: seq<Detection>, n: nat, k: nat)
    requires n <= |ds|
  {
    && k < n
    && (forall j :: 0 <= j < n && ds[j].content == ds[k].content ==> Ts(ds[k]) <= Ts(ds[j]))
    && (forall j :: 0 <= j < k && ds[j].content == ds[k].content ==> Ts(ds[k]) < Ts(ds[j]))
  }

  /** The position of the first entry with content `c` (|ds| if none). */
  function FirstWith(ds: seq<Detection>, c: string): (i: nat)
    ensures i <= |ds|
    ensures i < |ds| ==> ds[i].content == c
    ensures forall j :: 0 <= j < i ==> ds[j].content != c
  {
    if ds == [] then 0
    else if ds[0].content == c then 0
    else 1 + FirstWith(ds[1..], c)
  }

  lemma {:induction false} FirstWithAt(ds: seq<Detection>, j: nat)
    requires j < |ds|
    ensures FirstWith(ds, ds[j].content) <= j
  {
  }

  /** The map built by the `forEach`, as the positions of its values in
      `ds`, in the map's insertion order. */
  predicate Positions(ds: seq<Detection>, n: nat, kept: seq<nat>) {
    forall p :: 0 <= p < |kept| ==> kept[p] < n
  }

  /** What the map holds after the first `n` entries: for each content seen
      so far exactly one entry, the earliest, in order of first sighting. */
  predicate Grouping(ds: seq<Detection>, n: nat, kept: seq<nat>)
    requires n <= |ds|
  {
    && Positions(ds, n, kept)
    && AllEarliest(ds, n, kept)
    && Distinct(ContentList(Values(ds, kept)))
    && Elements(ContentList(Values(ds, kept))) == ContentsUpTo(ds, n)
    && (forall p, q :: 0 <= p < q < |kept| ==>
          FirstWith(ds, ds[kept[p]].content) < FirstWith(ds, ds[kept[q]].content))
  }

  /** Every map entry is the earliest of its content so far. */
  predicate AllEarliest(ds: seq<Detection>, n: nat, kept: seq<nat>)
    requires n <= |ds|
  {
    forall p :: 0 <= p < |kept| ==> EarliestAmong(ds, n, kept[p])
  }

  /** The map's values, in insertion order. */
  function Values(ds: seq<Detection>, kept: seq<nat>): (vs: seq<Detection>)
    requires Positions(ds, |ds|, kept)
    ensures |vs| == |kept|
    ensures forall p :: 0 <= p < |kept| ==> vs[p] == ds[kept[p]]
  {
    seq(|kept|, p requires 0 <= p < |kept| => ds[kept[p]])
  }

  /** `uniqueMap.has` / `get`: where content `c` sits in the map, if anywhere. */
  function Lookup(ds: seq<Detection>, kept: seq<nat>, c: string): (r: Option<nat>)
    requires Positions(ds, |ds|, kept)
    ensures r.Some? ==> r.value < |kept| && ds[kept[r.value]].content == c
    ensures r.None? ==> forall p :: 0 <= p < |kept| ==> ds[kept[p]].content != c
  {
    if kept == [] then None
    else if ds[kept[|kept| - 1]].content == c then Some(|kept| - 1)
    else Lookup(ds, kept[..|kept| - 1], c)
  }

  /** One turn of the `forEach`: a new content is appended; a known one is
      replaced in place only by a strictly earlier entry. */
  function Step(ds: seq<Detection>, kept: seq<nat>, n: nat): seq<nat>
    requires n < |ds| && Positions(ds, n, kept)
  {
    match Lookup(ds, kept, ds[n].content)
    case None => kept + [n]
    case Some(p) => if Ts(ds[n]) < Ts(ds[kept[p]]) then kept[p := n] else kept
  }

  /** The map after the first `n` entries. */
  function Group(ds: seq<Detection>, n: nat): (kept: seq<nat>)
    requires n <= |ds|
    ensures Positions(ds, n, kept)
  {
    if n == 0 then [] else Step(ds, Group(ds, n - 1), n - 1)
  }

  lemma {:induction false} ContentsUpToNext(ds: seq<Detection>, n: nat)
    requires n < |ds|
    ensures ContentsUpTo(ds, n + 1) == ContentsUpTo(ds, n) + {ds[n].content}
  {
  }

  /** A content not in the map has not been seen yet. */
  lemma {:induction false} UnseenContent(ds: seq<Detection>, n: nat, kept: seq<nat>)
    requires n < |ds| && Grouping(ds, n, kept)
    requires Lookup(ds, kept, ds[n].content).None?
    ensures forall j :: 0 <= j < n ==> ds[j].content != ds[n].content
    ensures FirstWith(ds, ds[n].content) == n
  {
    var c := ds[n].content;
    var vs := Values(ds, kept);
    forall j | 0 <= j < n ensures ds[j].content != c {
      assert ds[j].content in ContentsUpTo(ds, n);
      assert ds[j].content in Elements(ContentList(vs));
    }
    FirstWithAt(ds, n);
  }

  /** An entry of another content does not change who is earliest. */
  lemma {:induction false} EarliestExtends(ds: seq<Detection>, n: nat, k: nat)
    requires n < |ds| && EarliestAmong(ds, n, k) && ds[n].content != ds[k].content
    ensures EarliestAmong(ds, n + 1, k)
  {
  }

  /** Two map entries hold different contents. */
  lemma {:induction false} KeptApart(ds: seq<Detection>, n: nat, kept: seq<nat>, p: nat, q: nat)
    requires n <= |ds| && Grouping(ds, n, kept)
    requires p < |kept| && q < |kept| && p != q
    ensures ds[kept[p]].content != ds[kept[q]].content
  {
    var cs := ContentList(Values(ds, kept));
    if p < q { assert cs[p] != cs[q]; } else { assert cs[q] != cs[p]; }
  }

  lemma {:induction false} StepAppends(ds: seq<Detection>, n: nat, kept: seq<nat>)
    requires n < |ds| && Grouping(ds, n, kept)
    requires Lookup(ds, kept, ds[n].content).None?
    ensures Grouping(ds, n + 1, kept + [n])
  {
    var next := kept + [n];
    UnseenContent(ds, n, kept);
    forall p | 0 <= p < |next| ensures EarliestAmong(ds, n + 1, next[p]) {
      if p < |kept| {
        assert EarliestAmong(ds, n, kept[p]);
        EarliestExtends(ds, n, kept[p]);
      }
    }
    forall p | 0 <= p < |kept| ensures FirstWith(ds, ds[kept[p]].content) < n {
      FirstWithAt(ds, kept[p]);
    }
    NewContentRegroup(ds, n, kept);
  }

  /** A content seen for the first time joins the map at its end. */
  lemma {:induction false} NewContentRegroup(ds: seq<Detection>, n: nat, kept: seq<nat>)
    requires n < |ds| && Grouping(ds, n, kept)
    requires forall j :: 0 <= j < n ==> ds[j].content != ds[n].content
    requires FirstWith(ds, ds[n].content) == n
    requires forall p :: 0 <= p < |kept + [n]| ==> EarliestAmong(ds, n + 1, (kept + [n])[p])
    requires forall p :: 0 <= p < |kept| ==> FirstWith(ds, ds[kept[p]].content) < n
    ensures Grouping(ds, n + 1, kept + [n])
  {
    var c := ds[n].content;
    var cs := ContentList(Values(ds, kept));
    assert ContentList(Values(ds, kept + [n])) == cs + [c];
    assert c !in cs by {
      forall p | 0 <= p < |cs| ensures cs[p] != c {
        assert cs[p] == ds[kept[p]].content && kept[p] < n;
      }
    }
    SnocFacts(cs, c);
    ContentsUpToNext(ds, n);
  }

  /** A map that keeps the old map's contents slot by slot, each slot now
      holding the earliest entry so far, is the grouping one entry further on,
      provided that entry's content was already seen. */
  lemma {:induction false} SameContentsRegroup(ds: seq<Detection>, n: nat, kept: seq<nat>, next: seq<nat>)
    requires n < |ds| && Grouping(ds, n, kept)
    requires |next| == |kept| && Positions(ds, n + 1, next)
    requires forall q :: 0 <= q < |next| ==> ds[next[q]].content == ds[kept[q]].content
    requires forall q :: 0 <= q < |next| ==> EarliestAmong(ds, n + 1, next[q])
    requires ds[n].content in ContentsUpTo(ds, n)
    ensures Grouping(ds, n + 1, next)
  {
    assert ContentList(Values(ds, next)) == ContentList(Values(ds, kept));
    ContentsUpToNext(ds, n);
  }

  lemma {:induction false} StepReplaces(ds: seq<Detection>, n: nat, kept: seq<nat>, p: nat)
    requires n < |ds| && Grouping(ds, n, kept)
    requires Lookup(ds, kept, ds[n].content) == Some(p)
    requires Ts(ds[n]) < Ts(ds[kept[p]])
    ensures Grouping(ds, n + 1, kept[p := n])
  {
    var next := kept[p := n];
    forall q | 0 <= q < |next| ensures EarliestAmong(ds, n + 1, next[q]) {
      assert EarliestAmong(ds, n, kept[q]);
      if q != p {
        KeptApart(ds, n, kept, p, q);
        EarliestExtends(ds, n, kept[q]);
      } else {
        EarlierTakesOver(ds, n, kept[p]);
      }
    }
    assert ds[n].content in ContentsUpTo(ds, n) by {
      assert ds[n].content == ds[kept[p]].content;
    }
    SameContentsRegroup(ds, n, kept, next);
  }

  /** A strictly earlier entry of the same content becomes the earliest. */
  lemma {:induction false} EarlierTakesOver(ds: seq<Detection>, n: nat, k: nat)
    requires n < |ds| && EarliestAmong(ds, n, k)
    requires ds[n].content == ds[k].content && Ts(ds[n]) < Ts(ds[k])
    ensures EarliestAmong(ds, n + 1, n)
  {
  }

  /** A known content whose new entry is not strictly earlier keeps its place. */
  lemma {:induction false} EarliestStays(ds: seq<Detection>, n: nat, k: nat)
    requires n < |ds| && EarliestAmong(ds, n, k)
    requires ds[n].content == ds[k].content && !(Ts(ds[n]) < Ts(ds[k]))
    ensures EarliestAmong(ds, n + 1, k)
  {
  }

  lemma {:induction false} StepKeeps(ds: seq<Detection>, n: nat, kept: seq<nat>, p: nat)
    requires n < |ds| && Grouping(ds, n, kept)
    requires Lookup(ds, kept, ds[n].content) == Some(p)
    requires !(Ts(ds[n]) < Ts(ds[kept[p]]))
    ensures Grouping(ds, n + 1, kept)
  {
    forall q | 0 <= q < |kept| ensures EarliestAmong(ds, n + 1, kept[q]) {
      assert EarliestAmong(ds, n, kept[q]);
      if q != p {
        KeptApart(ds, n, kept, p, q);
        EarliestExtends(ds, n, kept[q]);
      } else {
        EarliestStays(ds, n, kept[p]);
      }
    }
    assert ds[n].content in ContentsUpTo(ds, n) by {
      assert ds[n].content == ds[kept[p]].content;
    }
    SameContentsRegroup(ds, n, kept, kept);
  }

  /** One turn of the `forEach` keeps the grouping invariant. */
  lemma {:induction false} GroupStep(ds: seq<Detection>, n: nat, kept: seq<nat>)
    requires n < |ds| && Grouping(ds, n, kept)
    ensures Grouping(ds, n + 1, Step(ds, kept, n))
  {
    match Lookup(ds, kept, ds[n].content)
    case None =>
      StepAppends(ds, n, kept);
    case Some(p) =>
      if Ts(ds[n]) < Ts(ds[kept[p]]) {
        StepReplaces(ds, n, kept, p);
      } else {
        StepKeeps(ds, n, kept, p);
      }
  }

  /** The `forEach` keeps the grouping invariant. */
  lemma {:induction false} GroupInvariant(ds: seq<Detection>, n: nat)
    requires n <= |ds|
    ensures Grouping(ds, n, Group(ds, n))
  {
    if n > 0 {
      var m := n - 1;
      var kept := Group(ds, m);
      GroupInvariant(ds, m);
      GroupStep(ds, m, kept);
      assert m + 1 == n && Group(ds, n) == Step(ds, kept, m);
      assert Grouping(ds, m + 1, Step(ds, kept, m));
    }
  }

  /** Non-decreasing by timestamp. */
  predicate Sorted(s: seq<Detection>) {
    forall i, j :: 0 <= i < j < |s| ==> Ts(s[i]) <= Ts(s[j])
  }

  /** The entries of `s` with timestamp `t`, in order. */
  function WithTimestamp(s: seq<Detection>, t: real): seq<Detection> {
    if s == [] then [] else (if Ts(s[0]) == t then [s[0]] else []) + WithTimestamp(s[1..], t)
  }

  /** Places `x` after every entry whose timestamp is not later than its own. */
  function Insert(x: Detection, s: seq<Detection>): seq<Detection> {
    if s == [] then [x]
    else if Ts(x) < Ts(s[0]) then [x] + s
    else [s[0]] + Insert(x, s[1..])
  }

  /** `Array.prototype.sort` with comparator a.ts - b.ts, which is stable. */
  function SortByTimestamp(s: seq<Detection>): seq<Detection> {
    if s == [] then [] else Insert(s[|s| - 1], SortByTimestamp(s[..|s| - 1]))
  }

  lemma {:induction false} InsertPermutes(x: Detection, s: seq<Detection>)
    ensures multiset(Insert(x, s)) == multiset(s) + multiset{x}
  {
    if s != [] && !(Ts(x) < Ts(s[0])) {
      InsertPermutes(x, s[1..]);
      assert Insert(x, s) == [s[0]] + Insert(x, s[1..]);
      assert s == [s[0]] + s[1..];
    }
  }

  /** Insertion keeps a lower bound shared by `x` and every entry of `s`. */
  lemma {:induction false} InsertBounded(x: Detection, s: seq<Detection>, lo: real)
    requires lo <= Ts(x) && forall k :: 0 <= k < |s| ==> lo <= Ts(s[k])
    ensures forall k :: 0 <= k < |Insert(x, s)| ==> lo <= Ts(Insert(x, s)[k])
  {
    if s != [] && !(Ts(x) < Ts(s[0])) {
      InsertBounded(x, s[1..], lo);
    }
  }

  lemma {:induction false} InsertSorted(x: Detection, s: seq<Detection>)
    requires Sorted(s)
    ensures Sorted(Insert(x, s))
  {
    if s == [] {
    } else if Ts(x) < Ts(s[0]) {
      assert forall k :: 0 <= k < |s| ==> Ts(s[0]) <= Ts(s[k]);
    } else {
      InsertSorted(x, s[1..]);
      InsertBounded(x, s[1..], Ts(s[0]));
    }
  }

  lemma {:induction false} WithTimestampAppend(a: seq<Detection>, b: seq<Detection>, t: real)
    ensures WithTimestamp(a + b, t) == WithTimestamp(a, t) + WithTimestamp(b, t)
  {
    if a == [] {
      assert a + b == b;
    } else {
      var ab := a + b;
      var h := if Ts(a[0]) == t then [a[0]] else [];
      assert ab[0] == a[0];
      assert ab[1..] == a[1..] + b;
      assert WithTimestamp(ab, t) == h + WithTimestamp(a[1..] + b, t);
      assert WithTimestamp(a, t) == h + WithTimestamp(a[1..], t);
      WithTimestampAppend(a[1..], b, t);
    }
  }

  lemma {:induction false} WithTimestampNone(s: seq<Detection>, t: real)
    requires forall k :: 0 <= k < |s| ==> Ts(s[k]) != t
    ensures WithTimestamp(s, t) == []
  {
    if s != [] {
      WithTimestampNone(s[1..], t);
    }
  }

  /** Inserting `x` puts it after every entry with its timestamp. */
  lemma {:induction false} InsertStable(x: Detection, s: seq<Detection>, t: real)
    requires Sorted(s)
    ensures WithTimestamp(Insert(x, s), t) == WithTimestamp(s, t) + WithTimestamp([x], t)
  {
    if s == [] {
    } else if Ts(x) < Ts(s[0]) {
      if Ts(x) == t {
        assert forall k :: 0 <= k < |s| ==> Ts(s[0]) <= Ts(s[k]);
        WithTimestampNone(s, t);
      }
      InsertFront(x, s, t);
    } else {
      assert Sorted(s[1..]);
      InsertStable(x, s[1..], t);
      InsertSkip(x, s, t);
    }
  }

  /** `x` inserted in front: its own match, if any, comes before the rest's,
      which are none when it matches. */
  lemma {:induction false} InsertFront(x: Detection, s: seq<Detection>, t: real)
    requires s != [] && Ts(x) < Ts(s[0])
    requires Ts(x) == t ==> WithTimestamp(s, t) == []
    ensures WithTimestamp(Insert(x, s), t) == WithTimestamp(s, t) + WithTimestamp([x], t)
  {
    WithTimestampCons(x, [], t);
    assert [x] + [] == [x];
    WithTimestampCons(x, s, t);
  }

  /** `x` inserted past the first entry: that entry's match stays in front. */
  lemma {:induction false} InsertSkip(x: Detection, s: seq<Detection>, t: real)
    requires s != [] && !(Ts(x) < Ts(s[0]))
    requires WithTimestamp(Insert(x, s[1..]), t) == WithTimestamp(s[1..], t) + WithTimestamp([x], t)
    ensures WithTimestamp(Insert(x, s), t) == WithTimestamp(s, t) + WithTimestamp([x], t)
  {
    var r := Insert(x, s[1..]);
    assert Insert(x, s) == [s[0]] + r;
    WithTimestampCons(s[0], r, t);
    WithTimestampCons(s[0], s[1..], t);
    assert [s[0]] + s[1..] == s;
  }

  /** One step of `WithTimestamp`. */
  lemma {:induction false} WithTimestampCons(d: Detection, r: seq<Detection>, t: real)
    ensures WithTimestamp([d] + r, t) == (if Ts(d) == t then [d] else []) + WithTimestamp(r, t)
  {
    assert ([d] + r)[0] == d && ([d] + r)[1..] == r;
  }

  /** The sort orders by timestamp, keeps exactly the same entries, and
      keeps entries with equal timestamps in their original order. */
  lemma {:induction false} SortByTimestampSpec(s: seq<Detection>)
    ensures Sorted(SortByTimestamp(s))
    ensures multiset(SortByTimestamp(s)) == multiset(s)
    ensures forall t :: WithTimestamp(SortByTimestamp(s), t) == WithTimestamp(s, t)
  {
    if s != [] {
      var init := s[..|s| - 1];
      var x := s[|s| - 1];
      SortByTimestampSpec(init);
      InsertSorted(x, SortByTimestamp(init));
      InsertPermutes(x, SortByTimestamp(init));
      assert s == init + [x];
      forall t ensures WithTimestamp(SortByTimestamp(s), t) == WithTimestamp(s, t) {
        InsertStable(x, SortByTimestamp(init), t);
        WithTimestampAppend(init, [x], t);
      }
    }
  }

  lemma {:induction false} InsertContents(x: Detection, s: seq<Detection>)
    requires Distinct(ContentList(s)) && x.content !in Elements(ContentList(s))
    ensures Distinct(ContentList(Insert(x, s)))
    ensures Elements(ContentList(Insert(x, s))) == Elements(ContentList(s)) + {x.content}
  {
    if s == [] {
      assert ContentList(Insert(x, s)) == [x.content] + [];
      ConsFacts(x.content, []);
    } else if Ts(x) < Ts(s[0]) {
      assert ContentList(Insert(x, s)) == [x.content] + ContentList(s);
      ConsFacts(x.content, ContentList(s));
    } else {
      var rest := s[1..];
      var c0 := s[0].content;
      assert ContentList(s) == [c0] + ContentList(rest);
      ConsFacts(c0, ContentList(rest));
      InsertContents(x, rest);
      var r := Insert(x, rest);
      assert ContentList(Insert(x, s)) == [c0] + ContentList(r);
      assert c0 != x.content;
      assert c0 !in Elements(ContentList(r));
      ConsFacts(c0, ContentList(r));
    }
  }

  /** Sorting keeps the contents, and keeps them free of repetitions. */
  lemma {:induction false} SortKeepsDistinctContents(s: seq<Detection>)
    requires Distinct(ContentList(s))
    ensures Distinct(ContentList(SortByTimestamp(s)))
    ensures Elements(ContentList(SortByTimestamp(s))) == Elements(ContentList(s))
  {
    if s != [] {
      var init := s[..|s| - 1];
      var x := s[|s| - 1];
      assert ContentList(s) == ContentList(init) + [x.content];
      assert Distinct(ContentList(init));
      SortKeepsDistinctContents(init);
      SortByTimestampSpec(init);
      InsertContents(x, SortByTimestamp(init));
    }
  }

  /** `uniqueQrCodes`: nothing without a detection list; otherwise the
      entries the map keeps, sorted by timestamp. */
  function UniqueQrCodes(detections: Option<seq<Detection>>): (out: seq<Detection>)
    ensures detections.None? ==> out == []
  {
    match detections
    case None => []
    case Some(ds) => SortByTimestamp(Values(ds, Group(ds, |ds|)))
  }

  /** `d` is an entry of `ds` that is the first sighting with the smallest
      timestamp for its content. */
  predicate EarliestEntry(ds: seq<Detection>, d: Detection) {
    exists k :: 0 <= k < |ds| && EarliestAmong(ds, |ds|, k) && ds[k] == d
  }

  /** One entry per distinct content, each an unmodified input entry with
      the earliest timestamp for its content (the first such on ties), in
      non-decreasing timestamp order. */
  lemma {:induction false} UniqueQrCodesSpec(ds: seq<Detection>)
    ensures var out := UniqueQrCodes(Some(ds));
            && Sorted(out)
            && Distinct(ContentList(out))
            && Elements(ContentList(out)) == ContentsUpTo(ds, |ds|)
            && |out| == |ContentsUpTo(ds, |ds|)|
            && forall i :: 0 <= i < |out| ==> EarliestEntry(ds, out[i])
  {
    var kept := Group(ds, |ds|);
    GroupInvariant(ds, |ds|);
    var g := Values(ds, kept);
    var out := SortByTimestamp(g);
    SortByTimestampSpec(g);
    SortKeepsDistinctContents(g);
    DistinctCardinality(ContentList(out));
    forall i | 0 <= i < |out| ensures EarliestEntry(ds, out[i]) {
      assert out[i] in multiset(g);
      var p :| 0 <= p < |g| && g[p] == out[i];
      assert EarliestAmong(ds, |ds|, kept[p]);
    }
  }

  /** Entries with equal timestamps come out in the order their contents
      were first seen, as the map's insertion order has them. */
  lemma {:induction false} UniqueQrCodesTies(ds: seq<Detection>)
    ensures var g := Values(ds, Group(ds, |ds|));
            && (forall t :: WithTimestamp(UniqueQrCodes(Some(ds)), t) == WithTimestamp(g, t))
            && (forall p, q :: 0 <= p < q < |g| ==> FirstWith(ds, g[p].content) < FirstWith(ds, g[q].content))
  {
    GroupInvariant(ds, |ds|);
    SortByTimestampSpec(Values(ds, Group(ds, |ds|)));
  }

  /** What the browser reports about a chosen file. */
  datatype ClientFile = ClientFile(mimeType: string, size: nat)

  const AllowedTypes: set<string> := {"video/mp4", "video/avi", "video/mov", "video/quicktime"}
  const MaxSize: nat := 500 * 1024 * 1024
  const InvalidTypeMessage := "Please select a valid video file (MP4, AVI, MOV)"
  const TooLargeMessage := "File size must be less than 500MB"

  /** `validateFile`: the type is checked before the size; the error text
      is the one shown to the user. */
  function ValidateFile(file: ClientFile): (o: Outcome<string>)
    ensures o.Pass? <==> file.mimeType in AllowedTypes && file.size <= MaxSize
    ensures file.mimeType !in AllowedTypes ==> o == Fail(InvalidTypeMessage)
    ensures file.mimeType in AllowedTypes && file.size > MaxSize ==> o == Fail(TooLargeMessage)
  {
    if file.mimeType !in AllowedTypes then Fail(InvalidTypeMessage)
    else if file.size > MaxSize then Fail(TooLargeMessage)
    else Pass
  }

  /** The size limit is inclusive: exactly 500 MiB passes, one byte more does not. */
  lemma {:induction false} SizeLimitInclusive(mimeType: string)
    requires mimeType in AllowedTypes
    ensures ValidateFile(ClientFile(mimeType, 524288000)).Pass?
    ensures ValidateFile(ClientFile(mimeType, 524288001)) == Fail(TooLargeMessage)
  {
  }

  /** The page and the server accept different content types, and the
      only type that passes both checks is MP4: AVI is "video/avi" to the
      page but "video/x-msvideo" to the server, and QuickTime passes only
      the page's check. */
  lemma {:induction false} ClientAndServerTypesDiffer(name: string, size: nat, mimeType: string)
    requires 0 < size <= MaxSize
    ensures ValidateFile(ClientFile(mimeType, size)).Pass?
            && VideoUpload.ValidateFile(Some(FileStorage.FormFile(name, mimeType, size))).Pass?
            <==> mimeType == "video/mp4"
    ensures ValidateFile(ClientFile("video/avi", size)).Pass?
    ensures VideoUpload.ValidateFile(Some(FileStorage.FormFile(name, "video/x-msvideo", size))).Pass?
  {
  }
}
