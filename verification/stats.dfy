/** The `/api/blog-stats` handler: a shape check, then four values computed
    from the array of records (`_.size`, `_.maxBy` on the title length, a
    `filter` on the lowercase "privacy" prefix, and `_.uniqWith` on the
    lowercased titles followed by a `map` to the titles). */
module Stats {
  import opened Text
  import opened Seqs
  import opened Blogs

  datatype StatsResponse =
    | BadRequest(error: string)
    | Stats(total: nat, longest: Option<Blog>, privacyCount: nat, uniqueTitles: seq<string>)

  const InvalidDataStructure: string := "Invalid data structure"
  const PrivacyPrefix: string := "privacy"

  function Titles(bs: seq<Blog>): seq<string> {
    seq(|bs|, i requires 0 <= i < |bs| => bs[i].title)
  }

  // ---------------------------------------------------------------------
  // Longest title: `_.maxBy(blogs, "title.length")`

  /** `title.length`: the title's length in UTF-16 code units. */
  function TitleLength(b: Blog): nat {
    Utf16Length(b.title)
  }

  /** The scan that `_.maxBy` performs: `best` holds the record chosen so far
      among `bs[..i]`, and a later record replaces it only when its title is
      strictly longer. */
  function LongestFrom(bs: seq<Blog>, i: nat, best: nat): (k: nat)
    requires best < i <= |bs|
    requires forall j :: 0 <= j < i ==> TitleLength(bs[j]) <= TitleLength(bs[best])
    requires forall j :: 0 <= j < best ==> TitleLength(bs[j]) < TitleLength(bs[best])
    ensures k < |bs|
    ensures forall j :: 0 <= j < |bs| ==> TitleLength(bs[j]) <= TitleLength(bs[k])
    ensures forall j :: 0 <= j < k ==> TitleLength(bs[j]) < TitleLength(bs[k])
    decreases |bs| - i
  {
    if i == |bs| then best
    else if TitleLength(bs[i]) > TitleLength(bs[best]) then LongestFrom(bs, i + 1, i)
    else LongestFrom(bs, i + 1, best)
  }

  /** The record with the longest title, the earliest one among equals;
      undefined for an empty array. */
  function LongestTitleBlog(bs: seq<Blog>): (r: Option<Blog>)
    ensures r.None? <==> bs == []
    ensures r.Some? ==> exists k :: (0 <= k < |bs| && bs[k] == r.value
      && (forall j :: 0 <= j < |bs| ==> TitleLength(bs[j]) <= TitleLength(bs[k]))
      && (forall j :: 0 <= j < k ==> TitleLength(bs[j]) < TitleLength(bs[k])))
  {
    if bs == [] then None
    else
      var k := LongestFrom(bs, 1, 0);
      Some(bs[k])
  }

  /** A record whose title is strictly longer than every other is the one
      chosen. */
  lemma StrictlyLongestChosen(bs: seq<Blog>, k: nat)
    requires k < |bs|
    requires forall j :: 0 <= j < |bs| && j != k ==> TitleLength(bs[j]) < TitleLength(bs[k])
    ensures LongestTitleBlog(bs) == Some(bs[k])
  {
    var m :| 0 <= m < |bs| && bs[m] == LongestTitleBlog(bs).value
      && (forall j :: 0 <= j < |bs| ==> TitleLength(bs[j]) <= TitleLength(bs[m]))
      && (forall j :: 0 <= j < m ==> TitleLength(bs[j]) < TitleLength(bs[m]));
    assert TitleLength(bs[k]) <= TitleLength(bs[m]);
    assert m == k;
  }

  // ---------------------------------------------------------------------
  // Privacy count: `blogs.filter(x => x.title.toLowerCase().startsWith("privacy")).length`

  predicate IsPrivacyBlog(b: Blog) {
    StartsWith(Lower(b.title), PrivacyPrefix)
  }

  function PrivacyBlogs(bs: seq<Blog>): seq<Blog> {
    Filter(bs, b => IsPrivacyBlog(b))
  }

  /** The number of records whose lowercased title starts with "privacy":
      at most the total, zero exactly when no record qualifies, and the total
      exactly when all do. */
  function PrivacyCount(bs: seq<Blog>): (n: nat)
    ensures n <= |bs|
    ensures n == 0 <==> forall j :: 0 <= j < |bs| ==> !IsPrivacyBlog(bs[j])
    ensures n == |bs| <==> forall j :: 0 <= j < |bs| ==> IsPrivacyBlog(bs[j])
  {
    var r := PrivacyBlogs(bs);
    FilterKeepsAll(bs, b => IsPrivacyBlog(b));
    assert (forall j :: 0 <= j < |bs| ==> IsPrivacyBlog(bs[j])) <==> (forall b :: b in bs ==> IsPrivacyBlog(b));
    assert r != [] ==> r[0] in r;
    |r|
  }

  /** The count adds up over a split of the array. */
  lemma PrivacyCountAppend(a: seq<Blog>, b: seq<Blog>)
    ensures PrivacyCount(a + b) == PrivacyCount(a) + PrivacyCount(b)
  {
    FilterAppend(a, b, b => IsPrivacyBlog(b));
  }

  /** Each record counts as many times as it occurs, if it qualifies. */
  lemma PrivacyBlogsCount(bs: seq<Blog>, x: Blog)
    ensures multiset(PrivacyBlogs(bs))[x] == if IsPrivacyBlog(x) then multiset(bs)[x] else 0
  {
    FilterCount(bs, b => IsPrivacyBlog(b), x);
  }

  // ---------------------------------------------------------------------
  // Unique titles: `_.uniqWith(blogs, (a, b) => lower(a.title) === lower(b.title)).map(b => b.title)`

  function Key(b: Blog): string {
    Lower(b.title)
  }

  function Keys(bs: seq<Blog>): seq<string> {
    LowerAll(Titles(bs))
  }

  /** The index of the first record of `bs` whose lowercased title is `k`,
      or `|bs|` when there is none. */
  function FirstIndex(bs: seq<Blog>, k: string): (i: nat)
    ensures i <= |bs|
    ensures i < |bs| ==> Key(bs[i]) == k
    decreases |bs|
  {
    if bs == [] then 0
    else if Key(bs[0]) == k then 0
    else 1 + FirstIndex(bs[1..], k)
  }

  /** No record before the first index carries the key. */
  lemma {:induction false} FirstIndexIsFirst(bs: seq<Blog>, k: string, j: nat)
    requires j < FirstIndex(bs, k)
    ensures Key(bs[j]) != k
    decreases |bs|
  {
    if j > 0 {
      FirstIndexIsFirst(bs[1..], k, j - 1);
    }
  }

  /** The loop of `_.uniqWith`: `seen` holds the records kept so far; the
      next record is kept unless a kept one has the same lowercased title. */
  function UniqWithFrom(rest: seq<Blog>, seen: seq<Blog>): seq<Blog>
    decreases |rest|
  {
    if rest == [] then seen
    else if Key(rest[0]) in Keys(seen) then UniqWithFrom(rest[1..], seen)
    else UniqWithFrom(rest[1..], seen + [rest[0]])
  }

  function UniqWith(bs: seq<Blog>): seq<Blog> {
    UniqWithFrom(bs, [])
  }

  /** Every consumed record's key is among the kept records' keys. */
  ghost predicate Covers(done: seq<Blog>, seen: seq<Blog>) {
    forall j :: 0 <= j < |done| ==> Key(done[j]) in Keys(seen)
  }

  /** Each kept record is the first consumed record with its key. */
  ghost predicate FirstsOf(done: seq<Blog>, seen: seq<Blog>) {
    forall p :: 0 <= p < |seen| ==>
      FirstIndex(done, Key(seen[p])) < |done| && done[FirstIndex(done, Key(seen[p]))] == seen[p]
  }

  /** The kept records appear in the order of their keys' first
      occurrences, so no two share a key. */
  ghost predicate InFirstOrder(done: seq<Blog>, seen: seq<Blog>) {
    forall p, q :: 0 <= p < q < |seen| ==>
      FirstIndex(done, Key(seen[p])) < FirstIndex(done, Key(seen[q]))
  }

  /** What the loop of `_.uniqWith` keeps true once it has consumed `done`,
      with `seen` the records kept so far. */
  ghost predicate UniqInv(done: seq<Blog>, seen: seq<Blog>) {
    Covers(done, seen) && FirstsOf(done, seen) && InFirstOrder(done, seen) && Subseq(seen, done)
  }

  /** Appending a record moves no first occurrence that already exists. */
  lemma {:induction false} FirstIndexSnoc(done: seq<Blog>, x: Blog, k: string)
    ensures FirstIndex(done + [x], k) ==
      if FirstIndex(done, k) < |done| then FirstIndex(done, k)
      else if Key(x) == k then |done| else |done| + 1
    decreases |done|
  {
    if done == [] {
      assert [x][1..] == [];
    } else {
      assert (done + [x])[0] == done[0];
      assert (done + [x])[1..] == done[1..] + [x];
      FirstIndexSnoc(done[1..], x, k);
    }
  }

  /** A key has no first occurrence exactly when it is not among the keys. */
  lemma FirstIndexAbsent(done: seq<Blog>, k: string)
    ensures FirstIndex(done, k) == |done| <==> k !in Keys(done)
  {
    var i := FirstIndex(done, k);
    if i < |done| {
      assert Keys(done)[i] == k;
    } else {
      forall j | 0 <= j < |done|
        ensures Keys(done)[j] != k
      {
        FirstIndexIsFirst(done, k, j);
        assert Keys(done)[j] == Key(done[j]);
      }
    }
  }

  lemma KeysSnoc(seen: seq<Blog>, x: Blog)
    ensures Keys(seen + [x]) == Keys(seen) + [Key(x)]
  {
  }

  /** Appending a record leaves the first occurrence of every kept key
      where it was. */
  lemma FirstIndexesKept(done: seq<Blog>, seen: seq<Blog>, x: Blog)
    requires FirstsOf(done, seen)
    ensures forall p :: 0 <= p < |seen| ==>
      FirstIndex(done + [x], Key(seen[p])) == FirstIndex(done, Key(seen[p]))
  {
    forall p | 0 <= p < |seen|
      ensures FirstIndex(done + [x], Key(seen[p])) == FirstIndex(done, Key(seen[p]))
    {
      FirstIndexSnoc(done, x, Key(seen[p]));
    }
  }

  /** Consuming a record and keeping nothing keeps the first occurrences
      and their order. */
  lemma FirstsKeptOnDrop(done: seq<Blog>, seen: seq<Blog>, x: Blog)
    requires FirstsOf(done, seen) && InFirstOrder(done, seen)
    ensures FirstsOf(done + [x], seen) && InFirstOrder(done + [x], seen)
  {
    FirstIndexesKept(done, seen, x);
  }

  /** The step of the `_.uniqWith` loop that drops a record whose key was
      already kept. */
  lemma UniqStepDrop(done: seq<Blog>, seen: seq<Blog>, x: Blog)
    requires UniqInv(done, seen)
    requires Key(x) in Keys(seen)
    ensures UniqInv(done + [x], seen)
  {
    FirstsKeptOnDrop(done, seen, x);
    SubseqExtendRight(seen, done, x);
  }

  /** A record whose key is not kept yet is the first consumed record with
      that key. */
  lemma NewKeyFirstAtEnd(done: seq<Blog>, seen: seq<Blog>, x: Blog)
    requires Covers(done, seen)
    requires Key(x) !in Keys(seen)
    ensures FirstIndex(done + [x], Key(x)) == |done|
  {
    assert Key(x) !in Keys(done) by {
      forall j | 0 <= j < |done|
        ensures Keys(done)[j] != Key(x)
      {
        assert Key(done[j]) in Keys(seen);
      }
    }
    FirstIndexAbsent(done, Key(x));
    FirstIndexSnoc(done, x, Key(x));
  }

  /** Keeping a record with a new key keeps every consumed key covered. */
  lemma CoversOnKeep(done: seq<Blog>, seen: seq<Blog>, x: Blog)
    requires Covers(done, seen)
    ensures Covers(done + [x], seen + [x])
  {
    KeysSnoc(seen, x);
  }

  /** Keeping a record with a new key, which first occurs at the end, keeps
      each kept record the first with its key. */
  lemma FirstsOfOnKeep(done: seq<Blog>, seen: seq<Blog>, x: Blog)
    requires FirstsOf(done, seen)
    requires FirstIndex(done + [x], Key(x)) == |done|
    ensures FirstsOf(done + [x], seen + [x])
  {
    var done', seen' := done + [x], seen + [x];
    FirstIndexesKept(done, seen, x);
    forall p | 0 <= p < |seen'|
      ensures FirstIndex(done', Key(seen'[p])) < |done'| && done'[FirstIndex(done', Key(seen'[p]))] == seen'[p]
    {
      if p < |seen| {
        assert seen'[p] == seen[p];
      }
    }
  }

  /** Keeping a record with a new key, which first occurs at the end, keeps
      the kept records in the order of their first occurrences. */
  lemma OrderOnKeep(done: seq<Blog>, seen: seq<Blog>, x: Blog)
    requires FirstsOf(done, seen) && InFirstOrder(done, seen)
    requires FirstIndex(done + [x], Key(x)) == |done|
    ensures InFirstOrder(done + [x], seen + [x])
  {
    var done', seen' := done + [x], seen + [x];
    FirstIndexesKept(done, seen, x);
    forall p, q | 0 <= p < q < |seen'|
      ensures FirstIndex(done', Key(seen'[p])) < FirstIndex(done', Key(seen'[q]))
    {
      assert seen'[p] == seen[p];
    }
  }

  /** The step of the `_.uniqWith` loop that keeps a record with a new key. */
  lemma UniqStepKeep(done: seq<Blog>, seen: seq<Blog>, x: Blog)
    requires UniqInv(done, seen)
    requires Key(x) !in Keys(seen)
    ensures UniqInv(done + [x], seen + [x])
  {
    CoversOnKeep(done, seen, x);
    NewKeyFirstAtEnd(done, seen, x);
    FirstsOfOnKeep(done, seen, x);
    OrderOnKeep(done, seen, x);
    SubseqAppendBoth(seen, done, x);
  }

  /** One step of the `_.uniqWith` loop keeps `UniqInv`. */
  lemma UniqStep(done: seq<Blog>, seen: seq<Blog>, x: Blog)
    requires UniqInv(done, seen)
    ensures UniqInv(done + [x], if Key(x) in Keys(seen) then seen else seen + [x])
  {
    if Key(x) in Keys(seen) {
      UniqStepDrop(done, seen, x);
    } else {
      UniqStepKeep(done, seen, x);
    }
  }

  lemma {:induction false} UniqWithFromInv(done: seq<Blog>, rest: seq<Blog>, seen: seq<Blog>)
    requires UniqInv(done, seen)
    ensures UniqInv(done + rest, UniqWithFrom(rest, seen))
    decreases |rest|
  {
    if rest == [] {
      assert done + rest == done;
    } else {
      var x := rest[0];
      var seen' := if Key(x) in Keys(seen) then seen else seen + [x];
      var done' := done + [x];
      assert done' + rest[1..] == done + rest;
      assert UniqWithFrom(rest, seen) == UniqWithFrom(rest[1..], seen');
      UniqStep(done, seen, x);
      UniqWithFromInv(done', rest[1..], seen');
    }
  }

  lemma {:induction false} SubseqTitles(r: seq<Blog>, s: seq<Blog>)
    requires Subseq(r, s)
    ensures Subseq(Titles(r), Titles(s))
    decreases |s|
  {
    if r != [] {
      assert Titles(s)[1..] == Titles(s[1..]);
      if r[0] == s[0] && Subseq(r[1..], s[1..]) {
        assert Titles(r)[1..] == Titles(r[1..]);
        SubseqTitles(r[1..], s[1..]);
      } else {
        SubseqTitles(r, s[1..]);
      }
    }
  }

  /** The whole `_.uniqWith` loop establishes `UniqInv` over the array. */
  lemma UniqWithInv(bs: seq<Blog>)
    ensures UniqInv(bs, UniqWith(bs))
  {
    UniqWithFromInv([], bs, []);
    assert [] + bs == bs;
  }

  /** The lowercased titles of records are their keys. */
  lemma KeysOfTitles(u: seq<Blog>)
    ensures forall p :: 0 <= p < |u| ==> Lower(Titles(u)[p]) == Key(u[p])
    ensures LowerAll(Titles(u)) == Keys(u)
  {
  }

  /** The array of unique titles: no two are equal once lowercased, every
      title's lowercase form is among them, each is the title of the first
      record carrying its lowercase form (so the first occurrence's casing is
      kept), and they are ordered by where their lowercase forms first
      occur. */
  function UniqueTitles(bs: seq<Blog>): (r: seq<string>)
    ensures |r| <= |bs|
    ensures forall p, q :: 0 <= p < q < |r| ==> Lower(r[p]) != Lower(r[q])
    ensures forall j :: 0 <= j < |bs| ==> Lower(bs[j].title) in LowerAll(r)
    ensures forall p :: 0 <= p < |r| ==>
      FirstIndex(bs, Lower(r[p])) < |bs| && bs[FirstIndex(bs, Lower(r[p]))].title == r[p]
    ensures forall p, q :: 0 <= p < q < |r| ==>
      FirstIndex(bs, Lower(r[p])) < FirstIndex(bs, Lower(r[q]))
    ensures Subseq(r, Titles(bs))
  {
    var u := UniqWith(bs);
    UniqWithInv(bs);
    KeysOfTitles(u);
    SubseqTitles(u, bs);
    SubseqLength(Titles(u), Titles(bs));
    Titles(u)
  }

  // ---------------------------------------------------------------------
  // The handler

  /** `GET /api/blog-stats` on the attached payload: 400 with
      "Invalid data structure" unless `blogs` is an array; otherwise the four
      values, computed over that array. */
  function BlogStats(data: Payload): (r: StatsResponse)
    ensures r.BadRequest? <==> !WellShaped(data)
    ensures r.BadRequest? ==> r.error == InvalidDataStructure
    ensures r.Stats? ==>
      var bs := data.blogs.items;
      && r.total == |bs|
      && r.privacyCount <= r.total
      && (r.longest.None? <==> bs == [])
      && |r.uniqueTitles| <= r.total
      && r.longest == LongestTitleBlog(bs)
      && r.privacyCount == PrivacyCount(bs)
      && r.uniqueTitles == UniqueTitles(bs)
  {
    if !WellShaped(data) then BadRequest(InvalidDataStructure)
    else
      var bs := data.blogs.items;
      Stats(|bs|, LongestTitleBlog(bs), PrivacyCount(bs), UniqueTitles(bs))
  }
}
