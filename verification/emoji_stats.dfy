/**
 * The emoji usage statistics of cogs/emoji.py: the per-guild counters that
 * `on_message` keeps, and the blob statistics that `get_all_blob_stats` and
 * `get_blob_stats_for` compute from them.
 *
 * The persisted store is a map from guild id to that guild's counts. The
 * blob guild's emoji ids, and the order in which the store yields its
 * values, are parameters.
 */
module EmojiStats {
  import opened Wrappers
  import EmojiPattern

  /** A `Counter` of emoji ids. A missing id counts 0. */
  type Counts = map<string, nat>

  /** The persisted statistics: guild id to that guild's counts. */
  type Store = map<string, Counts>

  function Count(m: Counts, id: string): nat {
    if id in m then m[id] else 0
  }

  /** `self.config.get(guild, {})`. */
  function GuildCounts(store: Store, guild: string): Counts {
    if guild in store then store[guild] else map[]
  }

  /**
   * The loop of `on_message`: each extracted id adds one to its count, and
   * an id seen for the first time starts at 1.
   */
  function Tally(db: Counts, ids: seq<string>): (r: Counts)
    ensures forall id :: id in r <==> id in db || id in ids
    ensures forall id :: Count(r, id) == Count(db, id) + multiset(ids)[id]
    decreases |ids|
  {
    if |ids| == 0 then db
    else
      var r := Tally(db[ids[0] := Count(db, ids[0]) + 1], ids[1..]);
      assert ids == [ids[0]] + ids[1..];
      assert multiset(ids) == multiset{ids[0]} + multiset(ids[1..]);
      r
  }

  /**
   * `on_message`: `None` when nothing is written, which is when the message
   * is not in a guild or mentions no emoji; otherwise the new store.
   */
  function OnMessage(store: Store, guild: Option<string>, content: string): (r: Option<Store>)
    ensures r.None? <==> guild.None? || |EmojiPattern.Ids(content)| == 0
    ensures r.Some? ==> r.value.Keys == store.Keys + {guild.value}
    ensures r.Some? ==> forall g :: g in store && g != guild.value ==> r.value[g] == store[g]
    ensures r.Some? ==> forall id :: (Count(r.value[guild.value], id)
      == Count(GuildCounts(store, guild.value), id) + multiset(EmojiPattern.Ids(content))[id])
  {
    match guild
    case None => None
    case Some(g) =>
      var matches := EmojiPattern.Ids(content);
      if |matches| == 0 then None
      else Some(store[g := Tally(GuildCounts(store, g), matches)])
  }

  /** Every count a message leaves behind is positive. */
  lemma TallyPositive(db: Counts, ids: seq<string>)
    requires forall id :: id in db ==> db[id] > 0
    ensures forall id :: id in Tally(db, ids) ==> Tally(db, ids)[id] > 0
  {
    var r := Tally(db, ids);
    forall id | id in r ensures r[id] > 0 {
      assert Count(r, id) == r[id];
      if id !in db {
        assert id in ids;
        assert multiset(ids)[id] > 0;
      } else {
        assert Count(db, id) > 0;
      }
    }
  }

  /** `total_usage.update(data)` for a `Counter` and a mapping. */
  function AddCounts(a: Counts, b: Counts): (r: Counts)
    ensures forall id :: id in r <==> id in a || id in b
    ensures forall id :: Count(r, id) == Count(a, id) + Count(b, id)
  {
    map id | id in a.Keys + b.Keys :: Count(a, id) + Count(b, id)
  }

  /** The usage of `id` in every guild, added up. */
  function SumOf(datas: seq<Counts>, id: string): nat
    decreases |datas|
  {
    if |datas| == 0 then 0 else Count(datas[0], id) + SumOf(datas[1..], id)
  }

  /** Adding the last guild's usage last gives the same sum. */
  lemma {:induction false} SumOfLast(datas: seq<Counts>, id: string)
    requires |datas| > 0
    ensures SumOf(datas, id) == SumOf(datas[..|datas| - 1], id) + Count(datas[|datas| - 1], id)
    decreases |datas|
  {
    if |datas| > 1 {
      SumOfLast(datas[1..], id);
      assert datas[1..][..|datas| - 2] == datas[..|datas| - 1][1..];
      assert datas[1..][|datas| - 2] == datas[|datas| - 1];
    }
  }

  /**
   * The loop `for data in self.config.all().values(): total_usage.update(data)`,
   * over the values in the order the store yields them.
   */
  function TotalUsage(datas: seq<Counts>): (r: Counts)
    ensures forall id :: id in r <==> exists i :: 0 <= i < |datas| && id in datas[i]
    ensures forall id :: Count(r, id) == SumOf(datas, id)
    decreases |datas|
  {
    if |datas| == 0 then map[]
    else
      var init := datas[..|datas| - 1];
      var r := AddCounts(TotalUsage(init), datas[|datas| - 1]);
      assert forall i :: 0 <= i < |init| ==> init[i] == datas[i];
      forall id ensures Count(r, id) == SumOf(datas, id) {
        SumOfLast(datas, id);
      }
      r
  }

  /** The sum over two runs of guilds is the sum of their sums. */
  lemma {:induction false} SumOfAppend(a: seq<Counts>, b: seq<Counts>, id: string)
    ensures SumOf(a + b, id) == SumOf(a, id) + SumOf(b, id)
    decreases |a|
  {
    if |a| > 0 {
      assert (a + b)[0] == a[0] && (a + b)[1..] == a[1..] + b;
      SumOfAppend(a[1..], b, id);
    } else {
      assert a + b == b;
    }
  }

  /** The per-id sum does not depend on the order of the guilds. */
  lemma {:induction false} SumOfPermutation(a: seq<Counts>, b: seq<Counts>, id: string)
    requires multiset(a) == multiset(b)
    ensures SumOf(a, id) == SumOf(b, id)
    decreases |a|
  {
    if |a| > 0 {
      assert a[0] in multiset(b);
      var k :| 0 <= k < |b| && b[k] == a[0];
      var front, back := b[..k], b[k + 1..];
      assert b == front + ([b[k]] + back);
      RemoveMatched(a, b, k);
      SumOfPermutation(a[1..], front + back, id);
      SumOfAppend(front, [b[k]] + back, id);
      SumOfAppend(front, back, id);
      assert ([b[k]] + back)[1..] == back;
    }
  }

  /** Taking the same element out of two permutations leaves permutations. */
  lemma RemoveMatched<T>(a: seq<T>, b: seq<T>, k: nat)
    requires multiset(a) == multiset(b) && |a| > 0 && k < |b| && b[k] == a[0]
    ensures multiset(a[1..]) == multiset(b[..k] + b[k + 1..])
  {
    assert a == [a[0]] + a[1..];
    assert b == b[..k] + [b[k]] + b[k + 1..];
    assert multiset(b) == multiset(b[..k]) + multiset{b[k]} + multiset(b[k + 1..]);
    assert multiset(b[..k] + b[k + 1..]) == multiset(b[..k]) + multiset(b[k + 1..]);
    assert multiset(a) == multiset{a[0]} + multiset(a[1..]);
    assert multiset(a[1..]) == multiset(a) - multiset{a[0]};
    assert multiset(b[..k]) + multiset(b[k + 1..]) == multiset(b) - multiset{b[k]};
  }

  /**
   * `total_usage` is the same whatever order the store yields the guild
   * counters in: the same ids, each with the same total.
   */
  lemma TotalUsagePermutation(a: seq<Counts>, b: seq<Counts>)
    requires multiset(a) == multiset(b)
    ensures TotalUsage(a) == TotalUsage(b)
  {
    var ta, tb := TotalUsage(a), TotalUsage(b);
    forall id ensures id in ta <==> id in tb {
      if i :| 0 <= i < |a| && id in a[i] {
        assert a[i] in multiset(b);
        var j :| 0 <= j < |b| && b[j] == a[i];
      }
      if j :| 0 <= j < |b| && id in b[j] {
        assert b[j] in multiset(a);
        var i :| 0 <= i < |a| && a[i] == b[j];
      }
    }
    forall id | id in ta ensures ta[id] == tb[id] {
      SumOfPermutation(a, b, id);
      assert Count(ta, id) == ta[id] && Count(tb, id) == tb[id];
    }
  }

  /** No id occurs twice. */
  predicate Distinct(s: seq<string>) {
    forall i, j :: 0 <= i < j < |s| ==> s[i] != s[j]
  }

  /** The keys of `{e.id: e for e in blob_guild.emojis}`: each id once, in first-occurrence order. */
  function Dedup(ids: seq<string>): (r: seq<string>)
    ensures forall id :: id in r <==> id in ids
    ensures Distinct(r)
    decreases |ids|
  {
    if |ids| == 0 then []
    else
      var init := ids[..|ids| - 1];
      var d := Dedup(init);
      assert forall id :: id in ids <==> id in init || id == ids[|ids| - 1] by {
        assert ids == init + [ids[|ids| - 1]];
      }
      if ids[|ids| - 1] in d then d else d + [ids[|ids| - 1]]
  }

  /** Ids that are already distinct keep their order. */
  lemma {:induction false} DedupDistinct(ids: seq<string>)
    requires Distinct(ids)
    ensures Dedup(ids) == ids
    decreases |ids|
  {
    if |ids| > 0 {
      var init := ids[..|ids| - 1];
      DedupDistinct(init);
      assert ids[|ids| - 1] !in init;
      assert init + [ids[|ids| - 1]] == ids;
    }
  }

  /** Where `id` first occurs in `ids`. */
  function FirstIndex(ids: seq<string>, id: string): (r: nat)
    requires id in ids
    ensures r < |ids| && ids[r] == id
    ensures forall k :: 0 <= k < r ==> ids[k] != id
    decreases |ids|
  {
    if ids[0] == id then 0
    else
      var r := FirstIndex(ids[1..], id);
      assert forall k :: 1 <= k <= r ==> ids[k] == ids[1..][k - 1];
      r + 1
  }

  /** Appending an element moves no first occurrence of an id already present. */
  lemma FirstIndexAppend(init: seq<string>, last: string, id: string)
    requires id in init
    ensures FirstIndex(init + [last], id) == FirstIndex(init, id)
  {
    var ids := init + [last];
    var r0, r1 := FirstIndex(init, id), FirstIndex(ids, id);
    assert ids[r0] == id;
  }

  /**
   * The table lists the ids in the order of their first occurrence, as a
   * `dict` built by a comprehension does; `most_common()` breaks ties in
   * that order.
   */
  lemma {:induction false} DedupFirstOccurrence(ids: seq<string>)
    ensures forall i, j :: 0 <= i < j < |Dedup(ids)| ==> FirstIndex(ids, Dedup(ids)[i]) < FirstIndex(ids, Dedup(ids)[j])
    decreases |ids|
  {
    if |ids| > 0 {
      var init, last := ids[..|ids| - 1], ids[|ids| - 1];
      assert ids == init + [last];
      var d := Dedup(init);
      DedupFirstOccurrence(init);
      forall x | x in d ensures FirstIndex(ids, x) == FirstIndex(init, x) && FirstIndex(ids, x) < |init| {
        FirstIndexAppend(init, last, x);
      }
      if last !in d {
        assert last !in init;
        assert FirstIndex(ids, last) == |init|;
        assert Dedup(ids) == d + [last];
        assert forall i :: 0 <= i < |d| ==> (d + [last])[i] == d[i];
      }
    }
  }

  /** An id with its count: an item of a `Counter`. */
  type Item = (string, nat)

  /** The items for `ids`, each with its count in `total`. */
  function UsageOf(total: Counts, ids: seq<string>): (r: seq<Item>)
    ensures |r| == |ids|
    ensures forall i :: 0 <= i < |r| ==> r[i].0 == ids[i] && r[i].1 == Count(total, ids[i])
    decreases |ids|
  {
    if |ids| == 0 then [] else [(ids[0], Count(total, ids[0]))] + UsageOf(total, ids[1..])
  }

  /**
   * `blob_usage`: `Counter({e: 0 for e in blob_ids})` updated with the
   * elements of `total_usage` that are blob ids.
   */
  function BlobUsage(total: Counts, blobIds: seq<string>): (r: seq<Item>)
    ensures forall id :: (exists i :: 0 <= i < |r| && r[i].0 == id) <==> id in blobIds
    ensures forall i, j :: 0 <= i < j < |r| ==> r[i].0 != r[j].0
    ensures forall i :: 0 <= i < |r| ==> r[i].1 == Count(total, r[i].0)
  {
    var d := Dedup(blobIds);
    var r := UsageOf(total, d);
    assert forall id :: id in d ==> exists i :: 0 <= i < |r| && r[i].0 == id by {
      forall id | id in d ensures exists i :: 0 <= i < |r| && r[i].0 == id {
        var i :| 0 <= i < |d| && d[i] == id;
        assert r[i].0 == id;
      }
    }
    r
  }

  /** `sum(blob_usage.values())`. */
  function Total(items: seq<Item>): nat
    decreases |items|
  {
    if |items| == 0 then 0 else items[0].1 + Total(items[1..])
  }

  /** Counts never increase along `s`. */
  predicate SortedDesc(s: seq<Item>) {
    forall i, j :: 0 <= i < j < |s| ==> s[i].1 >= s[j].1
  }

  /** Each count is at least the next one: the form the sorting proofs use. */
  predicate Descending(s: seq<Item>)
    decreases |s|
  {
    |s| <= 1 || (s[0].1 >= s[1].1 && Descending(s[1..]))
  }

  /** Neighbouring order gives the order of every pair. */
  lemma {:induction false} DescendingSorted(s: seq<Item>)
    requires Descending(s)
    ensures SortedDesc(s)
    decreases |s|
  {
    if |s| > 1 {
      DescendingSorted(s[1..]);
      assert forall j :: 1 <= j < |s| ==> s[j] == s[1..][j - 1];
    }
  }

  /** Put `x` before the first item counting less: the step of a stable insertion sort. */
  function Insert(x: Item, s: seq<Item>): (r: seq<Item>)
    ensures |r| == |s| + 1 && (r[0] == x || (|s| > 0 && r[0] == s[0]))
    decreases |s|
  {
    if |s| == 0 then [x]
    else if s[0].1 < x.1 then [x] + s
    else [s[0]] + Insert(x, s[1..])
  }

  /** Insertion adds exactly `x`. */
  lemma {:induction false} InsertPermutes(x: Item, s: seq<Item>)
    ensures multiset(Insert(x, s)) == multiset(s) + multiset{x}
    decreases |s|
  {
    if |s| > 0 && s[0].1 >= x.1 {
      InsertPermutes(x, s[1..]);
      assert s == [s[0]] + s[1..];
      assert multiset([s[0]] + Insert(x, s[1..])) == multiset{s[0]} + multiset(Insert(x, s[1..]));
    }
  }

  /** Insertion keeps a sequence in order. */
  lemma {:induction false} InsertDescending(x: Item, s: seq<Item>)
    requires Descending(s)
    ensures Descending(Insert(x, s))
    decreases |s|
  {
    if |s| > 0 && s[0].1 >= x.1 {
      InsertDescending(x, s[1..]);
      assert ([s[0]] + Insert(x, s[1..]))[1..] == Insert(x, s[1..]);
    }
  }

  /**
   * `most_common()`: the items by count, largest first, keeping the original
   * order among equal counts (`sorted` is stable).
   */
  function MostCommon(s: seq<Item>): (r: seq<Item>)
    ensures |r| == |s|
    decreases |s|
  {
    if |s| == 0 then [] else Insert(s[|s| - 1], MostCommon(s[..|s| - 1]))
  }

  /** `most_common` orders by count and loses or adds no item. */
  lemma {:induction false} MostCommonSorts(s: seq<Item>)
    ensures Descending(MostCommon(s))
    ensures multiset(MostCommon(s)) == multiset(s)
    decreases |s|
  {
    if |s| > 0 {
      var init := s[..|s| - 1];
      MostCommonSorts(init);
      InsertDescending(s[|s| - 1], MostCommon(init));
      InsertPermutes(s[|s| - 1], MostCommon(init));
      assert s == init + [s[|s| - 1]];
    }
  }

  /** The counts of `most_common()` never increase, and it is a permutation of its input. */
  lemma MostCommonSorted(s: seq<Item>)
    ensures SortedDesc(MostCommon(s))
    ensures multiset(MostCommon(s)) == multiset(s)
  {
    MostCommonSorts(s);
    DescendingSorted(MostCommon(s));
  }

  /** The items of `s` whose count is `c`, in order. */
  function WithCount(s: seq<Item>, c: nat): seq<Item>
    decreases |s|
  {
    if |s| == 0 then [] else (if s[0].1 == c then [s[0]] else []) + WithCount(s[1..], c)
  }

  /** The items counting `c` in a sequence with a known first item. */
  lemma WithCountCons(a: Item, t: seq<Item>, c: nat)
    ensures WithCount([a] + t, c) == WithCount([a], c) + WithCount(t, c)
  {
    assert ([a] + t)[1..] == t;
    assert [a][1..] == [];
  }

  lemma {:induction false} WithCountAppend(s: seq<Item>, t: seq<Item>, c: nat)
    ensures WithCount(s + t, c) == WithCount(s, c) + WithCount(t, c)
    decreases |s|
  {
    if |s| > 0 {
      WithCountAppend(s[1..], t, c);
      assert s + t == [s[0]] + (s[1..] + t);
      assert s == [s[0]] + s[1..];
      WithCountCons(s[0], s[1..] + t, c);
      WithCountCons(s[0], s[1..], c);
      var h := WithCount([s[0]], c);
      assert h + (WithCount(s[1..], c) + WithCount(t, c)) == (h + WithCount(s[1..], c)) + WithCount(t, c);
    } else {
      assert s + t == t;
    }
  }

  /** An ordered sequence that starts below `c` holds nothing counting `c`. */
  lemma {:induction false} WithCountBelow(s: seq<Item>, c: nat)
    requires Descending(s) && (|s| == 0 || s[0].1 < c)
    ensures WithCount(s, c) == []
    decreases |s|
  {
    if |s| > 0 {
      WithCountBelow(s[1..], c);
    }
  }

  /** An item counting more than the head of an ordered sequence comes after every item of its count. */
  lemma InsertInFront(x: Item, s: seq<Item>, c: nat)
    requires Descending(s) && |s| > 0 && s[0].1 < x.1
    ensures WithCount([x] + s, c) == WithCount(s, c) + WithCount([x], c)
  {
    WithCountCons(x, s, c);
    if x.1 == c {
      WithCountBelow(s, c);
    } else {
      assert WithCount([x], c) == [];
    }
  }

  /** Putting the same item in front of two sequences keeps a relation between their selections. */
  lemma WithCountConsBoth(a: Item, t: seq<Item>, u: seq<Item>, tail: seq<Item>, c: nat)
    requires WithCount(t, c) == WithCount(u, c) + tail
    ensures WithCount([a] + t, c) == WithCount([a] + u, c) + tail
  {
    WithCountCons(a, t, c);
    WithCountCons(a, u, c);
    var h := WithCount([a], c);
    assert h + (WithCount(u, c) + tail) == (h + WithCount(u, c)) + tail;
  }

  /** Inserting `x` places it after every item of the same count. */
  lemma {:induction false} InsertStable(x: Item, s: seq<Item>, c: nat)
    requires Descending(s)
    ensures WithCount(Insert(x, s), c) == WithCount(s, c) + WithCount([x], c)
    decreases |s|
  {
    if |s| == 0 {
    } else if s[0].1 < x.1 {
      InsertInFront(x, s, c);
    } else {
      InsertStable(x, s[1..], c);
      WithCountConsBoth(s[0], Insert(x, s[1..]), s[1..], WithCount([x], c), c);
      assert [s[0]] + s[1..] == s;
    }
  }

  /** `most_common` is stable: the items of each count keep their relative order. */
  lemma {:induction false} MostCommonStable(s: seq<Item>, c: nat)
    ensures WithCount(MostCommon(s), c) == WithCount(s, c)
    decreases |s|
  {
    if |s| > 0 {
      var init := s[..|s| - 1];
      MostCommonStable(init, c);
      MostCommonSorts(init);
      InsertStable(s[|s| - 1], MostCommon(init), c);
      WithCountAppend(init, [s[|s| - 1]], c);
      assert init + [s[|s| - 1]] == s;
    }
  }

  /** No id is in two items. */
  predicate DistinctIds(s: seq<Item>) {
    forall i, j :: 0 <= i < j < |s| ==> s[i].0 != s[j].0
  }

  /** Some item has id `id`. */
  predicate HasId(s: seq<Item>, id: string) {
    exists i :: 0 <= i < |s| && s[i].0 == id
  }

  /** Inserting an item with a new id keeps the ids distinct. */
  lemma {:induction false} InsertKeepsDistinct(x: Item, s: seq<Item>)
    requires DistinctIds(s) && !HasId(s, x.0)
    ensures DistinctIds(Insert(x, s))
    decreases |s|
  {
    if |s| > 0 && s[0].1 >= x.1 {
      var tail := s[1..];
      assert forall i :: 0 <= i < |tail| ==> tail[i] == s[i + 1];
      InsertKeepsDistinct(x, tail);
      var t := Insert(x, tail);
      InsertPermutes(x, tail);
      forall j | 0 <= j < |t| ensures t[j].0 != s[0].0 {
        assert t[j] in multiset(tail) + multiset{x};
        if t[j] != x {
          assert t[j] in multiset(tail);
          var k :| 0 <= k < |tail| && tail[k] == t[j];
          assert s[k + 1] == t[j];
        }
      }
      assert Insert(x, s) == [s[0]] + t;
    }
  }

  /** `most_common()` of items with distinct ids has distinct ids. */
  lemma {:induction false} MostCommonDistinct(s: seq<Item>)
    requires DistinctIds(s)
    ensures DistinctIds(MostCommon(s))
    decreases |s|
  {
    if |s| > 0 {
      var init, last := s[..|s| - 1], s[|s| - 1];
      assert forall i :: 0 <= i < |init| ==> init[i] == s[i];
      MostCommonDistinct(init);
      var m := MostCommon(init);
      MostCommonSorts(init);
      forall j | 0 <= j < |m| ensures m[j].0 != last.0 {
        assert m[j] in multiset(init);
      }
      InsertKeepsDistinct(last, m);
    }
  }

  /**
   * The rank `get_blob_stats_for` reports: one more than the position of the
   * first item with id `id`, or `None` when no item has that id.
   */
  function Rank(order: seq<Item>, id: string): (r: Option<nat>)
    ensures r.Some? ==> 1 <= r.value <= |order| && order[r.value - 1].0 == id
    ensures r.Some? ==> forall i :: 0 <= i < r.value - 1 ==> order[i].0 != id
    ensures r.None? ==> forall i :: 0 <= i < |order| ==> order[i].0 != id
    decreases |order|
  {
    if |order| == 0 then None
    else if order[0].0 == id then Some(1)
    else
      match Rank(order[1..], id)
      case None => None
      case Some(k) => Some(k + 1)
  }

  /** A permutation has the same ids. */
  lemma PermutationKeepsIds(a: seq<Item>, b: seq<Item>, id: string)
    requires multiset(a) == multiset(b)
    ensures (exists i :: 0 <= i < |a| && a[i].0 == id) <==> (exists j :: 0 <= j < |b| && b[j].0 == id)
  {
    if i :| 0 <= i < |a| && a[i].0 == id {
      assert a[i] in multiset(b);
      var j :| 0 <= j < |b| && b[j] == a[i];
    }
    if j :| 0 <= j < |b| && b[j].0 == id {
      assert b[j] in multiset(a);
      var i :| 0 <= i < |a| && a[i] == b[j];
    }
  }

  /** Every item of the ordered blob usage is a blob id with its total count. */
  lemma OrderedBlobItems(total: Counts, blobIds: seq<string>)
    ensures forall i :: 0 <= i < |MostCommon(BlobUsage(total, blobIds))| ==>
      MostCommon(BlobUsage(total, blobIds))[i].0 in blobIds
      && MostCommon(BlobUsage(total, blobIds))[i].1 == Count(total, MostCommon(BlobUsage(total, blobIds))[i].0)
  {
    var usage := BlobUsage(total, blobIds);
    var common := MostCommon(usage);
    MostCommonSorted(usage);
    forall i | 0 <= i < |common| ensures common[i].0 in blobIds && common[i].1 == Count(total, common[i].0) {
      assert common[i] in multiset(usage);
      var j :| 0 <= j < |usage| && usage[j] == common[i];
    }
  }

  /** What `get_blob_stats_for` reports about one emoji. */
  datatype EmojiStat = EmojiStat(usage: Option<nat>, rank: Option<nat>)

  /** The rank exists exactly for blob ids, and points at the id's own item. */
  lemma RankOfBlob(total: Counts, blobIds: seq<string>, id: string)
    ensures var order := MostCommon(BlobUsage(total, blobIds));
      && (Rank(order, id).Some? <==> id in blobIds)
      && (Rank(order, id).Some? ==> order[Rank(order, id).value - 1] == (id, Count(total, id)))
  {
    var usage := BlobUsage(total, blobIds);
    var order := MostCommon(usage);
    MostCommonSorted(usage);
    PermutationKeepsIds(usage, order, id);
    OrderedBlobItems(total, blobIds);
  }

  /**
   * `get_blob_stats_for`: the emoji's usage, `blob_usage.get(emoji.id)`, and
   * its rank in `blob_usage.most_common()`.
   */
  function StatsFor(total: Counts, blobIds: seq<string>, id: string): (r: EmojiStat)
    ensures r.usage.Some? <==> id in blobIds
    ensures r.usage.Some? ==> r.usage.value == Count(total, id)
    ensures r.rank.Some? <==> id in blobIds
    ensures r.rank.Some? ==> var order := MostCommon(BlobUsage(total, blobIds));
      1 <= r.rank.value <= |order| && order[r.rank.value - 1] == (id, Count(total, id))
  {
    var order := MostCommon(BlobUsage(total, blobIds));
    RankOfBlob(total, blobIds, id);
    EmojiStat(if id in blobIds then Some(Count(total, id)) else None, Rank(order, id))
  }

  /** How many items each of the two lists shows. */
  const ListLength: nat := 7

  /** `common[0:7]`. */
  function Top(order: seq<Item>): (r: seq<Item>)
    ensures |r| == if |order| < ListLength then |order| else ListLength
    ensures r == order[..|r|]
  {
    if |order| < ListLength then order else order[..ListLength]
  }

  /** `common[-7:]`. */
  function Bottom(order: seq<Item>): (r: seq<Item>)
    ensures |r| == if |order| < ListLength then |order| else ListLength
    ensures r == order[|order| - |r|..]
  {
    if |order| < ListLength then order else order[|order| - ListLength..]
  }

  /** The top list is used at least as often as anything after it in `most_common()`. */
  lemma TopIsMostUsed(s: seq<Item>)
    ensures var order := MostCommon(s);
      forall i, j :: 0 <= i < |Top(order)| <= j < |order| ==> Top(order)[i].1 >= order[j].1
  {
    MostCommonSorted(s);
  }

  /** The bottom list is used at most as often as anything before it in `most_common()`. */
  lemma BottomIsLeastUsed(s: seq<Item>)
    ensures var order := MostCommon(s);
      forall i, j :: 0 <= j < |order| - |Bottom(order)| && 0 <= i < |Bottom(order)| ==> Bottom(order)[i].1 <= order[j].1
  {
    MostCommonSorted(s);
  }

  /** Every item is a blob id with its usage in `total`. */
  predicate BlobItems(items: seq<Item>, total: Counts, blobIds: seq<string>) {
    forall i :: 0 <= i < |items| ==> items[i].0 in blobIds && items[i].1 == Count(total, items[i].0)
  }

  /** Both lists keep the order and the items of the sequence they are cut from. */
  lemma ListsOfOrder(order: seq<Item>, total: Counts, blobIds: seq<string>)
    requires SortedDesc(order) && BlobItems(order, total, blobIds)
    ensures SortedDesc(Top(order)) && BlobItems(Top(order), total, blobIds)
    ensures SortedDesc(Bottom(order)) && BlobItems(Bottom(order), total, blobIds)
  {
    var b := Bottom(order);
    var d := |order| - |b|;
    assert forall i :: 0 <= i < |b| ==> b[i] == order[d + i];
  }

  /** No blob id left out of `top` is used more than any item in it. */
  predicate MostUsed(top: seq<Item>, total: Counts, blobIds: seq<string>) {
    forall id :: id in blobIds && !HasId(top, id) ==> forall i :: 0 <= i < |top| ==> top[i].1 >= Count(total, id)
  }

  /** No blob id left out of `bottom` is used less than any item in it. */
  predicate LeastUsed(bottom: seq<Item>, total: Counts, blobIds: seq<string>) {
    forall id :: id in blobIds && !HasId(bottom, id) ==> forall i :: 0 <= i < |bottom| ==> bottom[i].1 <= Count(total, id)
  }

  /**
   * Cut from an ordering of all blob ids, each once, the top list holds the
   * most used and the bottom list the least used, each id at most once.
   */
  lemma ListsOfBlobs(order: seq<Item>, total: Counts, blobIds: seq<string>)
    requires SortedDesc(order) && BlobItems(order, total, blobIds) && DistinctIds(order)
    requires forall id :: id in blobIds ==> HasId(order, id)
    ensures DistinctIds(Top(order)) && MostUsed(Top(order), total, blobIds)
    ensures DistinctIds(Bottom(order)) && LeastUsed(Bottom(order), total, blobIds)
  {
    TopList(order, total, blobIds);
    BottomList(order, total, blobIds);
  }

  lemma TopList(order: seq<Item>, total: Counts, blobIds: seq<string>)
    requires SortedDesc(order) && BlobItems(order, total, blobIds) && DistinctIds(order)
    requires forall id :: id in blobIds ==> HasId(order, id)
    ensures DistinctIds(Top(order)) && MostUsed(Top(order), total, blobIds)
  {
    var top := Top(order);
    assert forall i :: 0 <= i < |top| ==> top[i] == order[i];
    forall id | id in blobIds && !HasId(top, id)
      ensures forall i :: 0 <= i < |top| ==> top[i].1 >= Count(total, id)
    {
      var j :| 0 <= j < |order| && order[j].0 == id;
      assert j >= |top|;
    }
  }

  lemma BottomList(order: seq<Item>, total: Counts, blobIds: seq<string>)
    requires SortedDesc(order) && BlobItems(order, total, blobIds) && DistinctIds(order)
    requires forall id :: id in blobIds ==> HasId(order, id)
    ensures DistinctIds(Bottom(order)) && LeastUsed(Bottom(order), total, blobIds)
  {
    var bottom := Bottom(order);
    var d := |order| - |bottom|;
    BottomAt(order);
    forall id | id in blobIds && !HasId(bottom, id)
      ensures forall i :: 0 <= i < |bottom| ==> bottom[i].1 <= Count(total, id)
    {
      var j :| 0 <= j < |order| && order[j].0 == id;
      assert j < d;
    }
  }

  /** The bottom list is the end of the ordering and keeps its ids distinct. */
  lemma BottomAt(order: seq<Item>)
    requires DistinctIds(order)
    ensures forall i :: 0 <= i < |Bottom(order)| ==> Bottom(order)[i] == order[|order| - |Bottom(order)| + i]
    ensures DistinctIds(Bottom(order))
  {
    var bottom := Bottom(order);
    var d := |order| - |bottom|;
    assert forall i :: 0 <= i < |bottom| ==> bottom[i] == order[d + i];
  }

  /** The usage of each id in `ids`, added up guild by guild. */
  function GuildSum(datas: seq<Counts>, ids: seq<string>): nat
    decreases |ids|
  {
    if |ids| == 0 then 0 else SumOf(datas, ids[0]) + GuildSum(datas, ids[1..])
  }

  /** Summing the items of the totals is summing each id over the guilds. */
  lemma {:induction false} TotalOfUsage(datas: seq<Counts>, ids: seq<string>)
    ensures Total(UsageOf(TotalUsage(datas), ids)) == GuildSum(datas, ids)
    decreases |ids|
  {
    if |ids| > 0 {
      var u := UsageOf(TotalUsage(datas), ids);
      assert u[1..] == UsageOf(TotalUsage(datas), ids[1..]);
      TotalOfUsage(datas, ids[1..]);
    }
  }

  /** The part of `get_all_blob_stats` the model covers. */
  datatype BlobSummary = BlobSummary(top: seq<Item>, bottom: seq<Item>, blobTotal: nat)

  /** `get_all_blob_stats`, without the embed and its percentages. */
  function AllBlobStats(datas: seq<Counts>, blobIds: seq<string>): (r: BlobSummary)
    ensures var n := |Dedup(blobIds)|;
      |r.top| == |r.bottom| == (if n < ListLength then n else ListLength)
    ensures BlobItems(r.top, TotalUsage(datas), blobIds) && BlobItems(r.bottom, TotalUsage(datas), blobIds)
    ensures SortedDesc(r.top) && SortedDesc(r.bottom)
    ensures DistinctIds(r.top) && MostUsed(r.top, TotalUsage(datas), blobIds)
    ensures DistinctIds(r.bottom) && LeastUsed(r.bottom, TotalUsage(datas), blobIds)
    ensures r.blobTotal == GuildSum(datas, Dedup(blobIds))
  {
    var total := TotalUsage(datas);
    var usage := BlobUsage(total, blobIds);
    var common := MostCommon(usage);
    BlobOrder(total, blobIds);
    ListsOfOrder(common, total, blobIds);
    ListsOfBlobs(common, total, blobIds);
    TotalOfUsage(datas, Dedup(blobIds));
    BlobSummary(Top(common), Bottom(common), Total(usage))
  }

  /** The ordered blob usage lists every blob id once, with its total, by decreasing use. */
  lemma BlobOrder(total: Counts, blobIds: seq<string>)
    ensures var order := MostCommon(BlobUsage(total, blobIds));
      && |order| == |Dedup(blobIds)| && SortedDesc(order) && BlobItems(order, total, blobIds)
      && DistinctIds(order) && forall id :: id in blobIds ==> HasId(order, id)
  {
    var usage := BlobUsage(total, blobIds);
    var order := MostCommon(usage);
    OrderedBlobItems(total, blobIds);
    MostCommonSorted(usage);
    MostCommonDistinct(usage);
    forall id | id in blobIds ensures HasId(order, id) {
      PermutationKeepsIds(usage, order, id);
    }
  }

  /** Some key of a non-empty map. */
  ghost function Pick(m: Counts): (k: string)
    requires |m| > 0
    ensures k in m
  {
    var k :| k in m; k
  }

  /** `sum(total_usage.values())`, the global usage: the sum over a map, in no particular order. */
  ghost function SumValues(m: Counts): nat
    decreases |m|
  {
    if |m| == 0 then 0 else m[Pick(m)] + SumValues(m - {Pick(m)})
  }

  /** The sum can start from any key. */
  lemma {:induction false} SumValuesRemove(m: Counts, k: string)
    requires k in m
    ensures SumValues(m) == m[k] + SumValues(m - {k})
    decreases |m|
  {
    var k' := Pick(m);
    if k' != k {
      SumValuesRemove(m - {k'}, k);
      SumValuesRemove(m - {k}, k');
      assert m - {k'} - {k} == m - {k} - {k'};
    }
  }

  /** Removing an id from the counts changes nothing for the other ids. */
  lemma {:induction false} UsageOfWithout(total: Counts, k: string, ids: seq<string>)
    requires k !in ids
    ensures UsageOf(total - {k}, ids) == UsageOf(total, ids)
    decreases |ids|
  {
    if |ids| > 0 {
      UsageOfWithout(total, k, ids[1..]);
    }
  }

  /** Distinct ids together use no more than all ids together. */
  lemma {:induction false} DistinctUsageBounded(total: Counts, ids: seq<string>)
    requires Distinct(ids)
    ensures Total(UsageOf(total, ids)) <= SumValues(total)
    decreases |ids|
  {
    if |ids| > 0 {
      var k := ids[0];
      var rest := ids[1..];
      assert Distinct(rest);
      assert k !in rest;
      if k in total {
        UsageOfWithout(total, k, rest);
        DistinctUsageBounded(total - {k}, rest);
        SumValuesRemove(total, k);
      } else {
        DistinctUsageBounded(total, rest);
      }
    }
  }

  /** The blob total never exceeds the global total, so the reported percentage is at most 100%. */
  lemma BlobTotalBounded(datas: seq<Counts>, blobIds: seq<string>)
    ensures AllBlobStats(datas, blobIds).blobTotal <= SumValues(TotalUsage(datas))
  {
    DistinctUsageBounded(TotalUsage(datas), Dedup(blobIds));
  }
}
