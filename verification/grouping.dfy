/** The grouping of the expense list and of the preparation checklist: a
    `reduce` over the items into a record keyed by category (and, for the
    checklist, by sub-category inside each category). A record is modelled
    as its entries in insertion order, which is the order `Object.keys`
    lists string keys in. */
module Grouping {
  import opened Wrappers

  datatype ExpenseItem = ExpenseItem(
    category: string,
    description: string,
    estimatedCost: string,
    note: Option<string>)

  datatype PreparationItem = PreparationItem(
    category: string,
    subCategory: Option<string>,
    item: string,
    note: Option<string>,
    isHighlight: bool,
    isNoteHighlight: bool)

  /** One entry of a grouped record: the key and the items pushed under it. */
  datatype Bucket<V> = Bucket(key: string, items: seq<V>)

  /** One entry of the two-level checklist record: a category with its
      sub-category buckets as items. */
  type Group<V> = Bucket<Bucket<V>>

  // ------------------------------------------------------------ one level

  /** `if (!acc[k]) acc[k] = []; acc[k].push(v)`: an existing entry keeps
      its place and gains `v` at its end; a new key is added last. */
  function Add<V>(g: seq<Bucket<V>>, k: string, v: V): (r: seq<Bucket<V>>)
  {
    if g == [] then [Bucket(k, [v])]
    else if g[0].key == k then [Bucket(k, g[0].items + [v])] + g[1..]
    else [g[0]] + Add(g[1..], k, v)
  }

  /** `xs.reduce(...)` with `Add`, from the empty record: no more entries
      than items, each key once, and every entry non-empty and holding
      only items of its key. */
  function GroupBy<V>(xs: seq<V>, key: V -> string): (g: seq<Bucket<V>>)
    ensures |g| <= |xs| && Filed(g, key)
  {
    if xs == [] then []
    else
      var v := xs[|xs| - 1];
      var g := GroupBy(xs[..|xs| - 1], key);
      AddFiled(g, key, v);
      Add(g, key(v), v)
  }

  /** Every entry is non-empty and holds only items of its own key, and no
      key has two entries. */
  predicate Filed<V>(g: seq<Bucket<V>>, key: V -> string) {
    && (forall i :: 0 <= i < |g| ==> g[i].items != [])
    && Keyed(g, key)
    && Distinct(BucketKeys(g))
  }

  predicate Keyed<V>(g: seq<Bucket<V>>, key: V -> string) {
    forall i, m :: 0 <= i < |g| && 0 <= m < |g[i].items| ==> key(g[i].items[m]) == g[i].key
  }

  /** The keys of a record, in order. */
  function BucketKeys<V>(g: seq<Bucket<V>>): (ks: seq<string>)
    ensures |ks| == |g| && forall i :: 0 <= i < |g| ==> ks[i] == g[i].key
  {
    seq(|g|, i requires 0 <= i < |g| => g[i].key)
  }

  /** `Add` keeps the keys in place and appends a new key last. */
  lemma {:induction false} AddKeys<V>(g: seq<Bucket<V>>, k: string, v: V)
    ensures BucketKeys(Add(g, k, v)) == if k in BucketKeys(g) then BucketKeys(g) else BucketKeys(g) + [k]
  {
    if g != [] && g[0].key != k {
      AddKeys(g[1..], k, v);
      assert BucketKeys(g) == [g[0].key] + BucketKeys(g[1..]);
      assert BucketKeys(Add(g, k, v)) == [g[0].key] + BucketKeys(Add(g[1..], k, v));
    }
  }

  /** Pushing an item under its own key keeps a record filed and adds at
      most one entry. */
  lemma {:induction false} AddFiled<V>(g: seq<Bucket<V>>, key: V -> string, v: V)
    requires Filed(g, key)
    ensures Filed(Add(g, key(v), v), key) && |Add(g, key(v), v)| <= |g| + 1
  {
    AddKeys(g, key(v), v);
    AddFiledItems(g, key, v);
  }

  /** The item part of `AddFiled`. */
  lemma {:induction false} AddFiledItems<V>(g: seq<Bucket<V>>, key: V -> string, v: V)
    requires forall i :: 0 <= i < |g| ==> g[i].items != []
    requires Keyed(g, key)
    ensures forall i :: 0 <= i < |Add(g, key(v), v)| ==> Add(g, key(v), v)[i].items != []
    ensures Keyed(Add(g, key(v), v), key)
  {
    if g != [] && g[0].key != key(v) {
      AddFiledItems(g[1..], key, v);
      var r, t := Add(g, key(v), v), Add(g[1..], key(v), v);
      assert r == [g[0]] + t;
      assert forall i :: 1 <= i < |r| ==> r[i] == t[i - 1];
    } else if g != [] {
      var r := Add(g, key(v), v);
      assert forall i :: 1 <= i < |r| ==> r[i] == g[i];
      assert forall m :: 0 <= m < |r[0].items| ==> r[0].items[m] == if m < |g[0].items| then g[0].items[m] else v;
    }
  }

  // ----------------------------------------------------------- reference

  /** The keys of the items, in input order. */
  function KeysOf<V>(xs: seq<V>, key: V -> string): (ks: seq<string>)
    ensures |ks| == |xs| && forall i :: 0 <= i < |xs| ==> ks[i] == key(xs[i])
  {
    seq(|xs|, i requires 0 <= i < |xs| => key(xs[i]))
  }

  /** Each key once, at the place it is first seen. */
  function FirstSeen(ks: seq<string>): (r: seq<string>)
    ensures forall k :: k in r <==> k in ks
    ensures Distinct(r)
    ensures forall i, j :: 0 <= i < j < |r| ==> FirstIndex(ks, r[i]) < FirstIndex(ks, r[j])
  {
    if ks == [] then []
    else
      var prefix, last := ks[..|ks| - 1], ks[|ks| - 1];
      var init := FirstSeen(prefix);
      assert ks == prefix + [last];
      FirstSeenStep(prefix, last, init);
      if last in init then init else init + [last]
  }

  /** `r` lists the keys of `ks`, each once, in the order they are first
      seen. */
  ghost predicate SeenOrder(ks: seq<string>, r: seq<string>) {
    && (forall k :: k in r <==> k in ks)
    && Distinct(r)
    && forall i, j :: 0 <= i < j < |r| ==> FirstIndex(ks, r[i]) < FirstIndex(ks, r[j])
  }

  /** One key more: it is added at the end unless it was seen before. */
  lemma FirstSeenStep(prefix: seq<string>, last: string, init: seq<string>)
    requires SeenOrder(prefix, init)
    ensures SeenOrder(prefix + [last], if last in init then init else init + [last])
  {
    var ks := prefix + [last];
    assert forall k :: k in ks <==> k in prefix || k == last;
    if last in init {
      forall i, j | 0 <= i < j < |init|
        ensures FirstIndex(ks, init[i]) < FirstIndex(ks, init[j])
      {
        FirstIndexSnoc(prefix, last, init[i]);
        FirstIndexSnoc(prefix, last, init[j]);
      }
    } else {
      var r := init + [last];
      DistinctSnoc(init, last);
      forall i, j | 0 <= i < j < |r|
        ensures r[i] in ks && r[j] in ks && FirstIndex(ks, r[i]) < FirstIndex(ks, r[j])
      {
        assert r[i] == init[i] && init[i] in prefix;
        FirstIndexSnoc(prefix, last, init[i]);
        if j < |init| {
          assert r[j] == init[j] && init[j] in prefix;
          FirstIndexSnoc(prefix, last, init[j]);
        } else {
          FirstIndexSnocNew(prefix, last);
        }
      }
    }
  }

  lemma DistinctSnoc(ks: seq<string>, k: string)
    requires Distinct(ks) && k !in ks
    ensures Distinct(ks + [k])
  {
    var r := ks + [k];
    assert forall i :: 0 <= i < |ks| ==> r[i] == ks[i] && r[i] in ks;
  }

  /** The place where `k` first occurs in `ks`. */
  function FirstIndex(ks: seq<string>, k: string): (i: nat)
    requires k in ks
    ensures i < |ks| && ks[i] == k
    ensures forall j :: 0 <= j < i ==> ks[j] != k
  {
    var prefix := ks[..|ks| - 1];
    assert ks == prefix + [ks[|ks| - 1]];
    assert forall j :: 0 <= j < |prefix| ==> ks[j] == prefix[j];
    if k in prefix then FirstIndex(prefix, k) else |ks| - 1
  }

  /** A key already in the list is first seen where it was before. */
  lemma FirstIndexSnoc(prefix: seq<string>, last: string, k: string)
    requires k in prefix
    ensures k in prefix + [last] && FirstIndex(prefix + [last], k) == FirstIndex(prefix, k) < |prefix|
  {
    assert (prefix + [last])[..|prefix|] == prefix;
  }

  /** A new key at the end is first seen there. */
  lemma FirstIndexSnocNew(prefix: seq<string>, last: string)
    requires last !in prefix
    ensures last in prefix + [last] && FirstIndex(prefix + [last], last) == |prefix|
  {
    assert (prefix + [last])[..|prefix|] == prefix;
  }

  predicate Distinct(ks: seq<string>) {
    forall i, j :: 0 <= i < j < |ks| ==> ks[i] != ks[j]
  }

  /** The items with key `k`, in input order. */
  function KeyItems<V>(xs: seq<V>, key: V -> string, k: string): seq<V>
  {
    if xs == [] then []
    else
      var v := xs[|xs| - 1];
      KeyItems(xs[..|xs| - 1], key, k) + (if key(v) == k then [v] else [])
  }

  /** One entry per key in `ks`, holding that key's items. */
  function Buckets<V>(ks: seq<string>, xs: seq<V>, key: V -> string): (g: seq<Bucket<V>>)
    ensures |g| == |ks|
    ensures forall i :: 0 <= i < |ks| ==> g[i] == Bucket(ks[i], KeyItems(xs, key, ks[i]))
  {
    seq(|ks|, i requires 0 <= i < |ks| => Bucket(ks[i], KeyItems(xs, key, ks[i])))
  }

  lemma BucketsCons<V>(ks: seq<string>, xs: seq<V>, key: V -> string)
    requires ks != []
    ensures Buckets(ks, xs, key) == [Bucket(ks[0], KeyItems(xs, key, ks[0]))] + Buckets(ks[1..], xs, key)
  {
  }

  /** The grouped record is exactly: one entry per key, in the order the
      keys are first seen, each holding all items of that key in input
      order. */
  lemma {:induction false} GroupByReference<V>(xs: seq<V>, key: V -> string)
    ensures GroupBy(xs, key) == Buckets(FirstSeen(KeysOf(xs, key)), xs, key)
  {
    if xs != [] {
      var init, v := xs[..|xs| - 1], xs[|xs| - 1];
      assert xs == init + [v];
      GroupByReference(init, key);
      var ks := FirstSeen(KeysOf(init, key));
      FirstSeenSnoc(xs, key);
      if key(v) !in ks {
        KeyItemsOfUnseen(init, key, key(v));
      }
      AddBuckets(ks, init, key, v);
    }
  }

  /** The keys first seen in a longer list: those of the shorter one, then
      the new key if it is new. */
  lemma FirstSeenSnoc<V>(xs: seq<V>, key: V -> string)
    requires xs != []
    ensures var ks, k := FirstSeen(KeysOf(xs[..|xs| - 1], key)), key(xs[|xs| - 1]);
      FirstSeen(KeysOf(xs, key)) == if k in ks then ks else ks + [k]
  {
    assert KeysOf(xs, key)[..|xs| - 1] == KeysOf(xs[..|xs| - 1], key);
  }

  lemma {:induction false} KeyItemsOfUnseen<V>(xs: seq<V>, key: V -> string, k: string)
    requires k !in KeysOf(xs, key)
    ensures KeyItems(xs, key, k) == []
  {
    if xs != [] {
      var init := xs[..|xs| - 1];
      assert KeysOf(init, key) == KeysOf(xs, key)[..|xs| - 1];
      KeyItemsOfUnseen(init, key, k);
    }
  }

  /** Pushing `v` onto the reference record gives the reference record of
      the items with `v` appended. */
  lemma {:induction false} AddBuckets<V>(ks: seq<string>, xs: seq<V>, key: V -> string, v: V)
    requires Distinct(ks)
    requires key(v) in ks || KeyItems(xs, key, key(v)) == []
    ensures Add(Buckets(ks, xs, key), key(v), v)
      == Buckets(if key(v) in ks then ks else ks + [key(v)], xs + [v], key)
  {
    if ks == [] {
      AddBucketsFirst(xs, key, v);
    } else if ks[0] == key(v) {
      AddBucketsHere(ks, xs, key, v);
    } else {
      PushPastHead(ks, key(v));
      AddBuckets(ks[1..], xs, key, v);
      AddBucketsPast(ks, if key(v) in ks[1..] then ks[1..] else ks[1..] + [key(v)], xs, key, v);
    }
  }

  /** The key list past a first key that differs from `k`. */
  lemma PushPastHead(ks: seq<string>, k: string)
    requires ks != [] && ks[0] != k && Distinct(ks)
    ensures Distinct(ks[1..]) && (k in ks <==> k in ks[1..])
    ensures (if k in ks then ks else ks + [k])
      == [ks[0]] + (if k in ks[1..] then ks[1..] else ks[1..] + [k])
  {
    assert ks == [ks[0]] + ks[1..];
  }

  /** Pushing past the first entry, given the push onto the others: the
      first entry keeps its items and the others are as pushed. */
  lemma AddBucketsPast<V>(ks: seq<string>, ks1: seq<string>, xs: seq<V>, key: V -> string, v: V)
    requires ks != [] && ks[0] != key(v)
    requires Add(Buckets(ks[1..], xs, key), key(v), v) == Buckets(ks1, xs + [v], key)
    ensures Add(Buckets(ks, xs, key), key(v), v) == Buckets([ks[0]] + ks1, xs + [v], key)
  {
    var ys := xs + [v];
    var head := Bucket(ks[0], KeyItems(xs, key, ks[0]));
    BucketsCons(ks, xs, key);
    assert Add(Buckets(ks, xs, key), key(v), v) == [head] + Add(Buckets(ks[1..], xs, key), key(v), v);
    assert KeyItems(ys, key, ks[0]) == KeyItems(xs, key, ks[0]) by {
      assert ys[..|ys| - 1] == xs;
    }
    BucketsCons([ks[0]] + ks1, ys, key);
    assert ([ks[0]] + ks1)[1..] == ks1;
  }

  /** Pushing onto the empty record, when no item has the key yet. */
  lemma AddBucketsFirst<V>(xs: seq<V>, key: V -> string, v: V)
    requires KeyItems(xs, key, key(v)) == []
    ensures Add(Buckets([], xs, key), key(v), v) == Buckets([key(v)], xs + [v], key)
  {
    var ys := xs + [v];
    assert ys[..|ys| - 1] == xs;
    assert KeyItems(ys, key, key(v)) == [v];
    assert Buckets([key(v)], ys, key)[0] == Bucket(key(v), [v]);
  }

  /** Pushing onto the first entry: the other entries see no new item. */
  lemma AddBucketsHere<V>(ks: seq<string>, xs: seq<V>, key: V -> string, v: V)
    requires Distinct(ks) && ks != [] && ks[0] == key(v)
    ensures Add(Buckets(ks, xs, key), key(v), v) == Buckets(ks, xs + [v], key)
  {
    var ys := xs + [v];
    assert ys[..|ys| - 1] == xs;
    var g := Buckets(ks, xs, key);
    assert g[1..] == Buckets(ks[1..], ys, key) by {
      forall i | 0 <= i < |ks| - 1 ensures g[1..][i] == Buckets(ks[1..], ys, key)[i] {
        assert ks[i + 1] != ks[0];
      }
    }
    BucketsCons(ks, ys, key);
  }

  /** The expense record of the expense list. */
  function ExpenseCategory(e: ExpenseItem): string { e.category }

  function GroupExpenses(xs: seq<ExpenseItem>): seq<Bucket<ExpenseItem>>
  {
    GroupBy(xs, ExpenseCategory)
  }

  /** Every expense appears under its own category, and categories are
      listed in the order their first expense appears. */
  lemma GroupExpensesReference(xs: seq<ExpenseItem>)
    ensures var g := GroupExpenses(xs);
      && |g| == |FirstSeen(KeysOf(xs, ExpenseCategory))|
      && forall i :: 0 <= i < |g| ==>
        g[i].key == FirstSeen(KeysOf(xs, ExpenseCategory))[i]
        && g[i].items == KeyItems(xs, ExpenseCategory, g[i].key)
  {
    GroupByReference(xs, ExpenseCategory);
  }

  // ------------------------------------------------------------ two levels

  /** `item.subCategory || 'General'`: a missing or empty sub-category
      falls back to `General`. */
  function SubKey(p: PreparationItem): (k: string)
    ensures k == "General" <==> p.subCategory.None? || p.subCategory.value in {"", "General"}
    ensures p.subCategory.Some? && p.subCategory.value != "" ==> k == p.subCategory.value
  {
    match p.subCategory
    case None => "General"
    case Some(s) => if s == "" then "General" else s
  }

  function Category(p: PreparationItem): string { p.category }

  /** One step of the checklist `reduce`: create the category entry if it
      is missing, then push the item under its sub-category there. */
  function AddPrep(g: seq<Group<PreparationItem>>, p: PreparationItem): seq<Group<PreparationItem>>
  {
    if g == [] then [Bucket(p.category, [Bucket(SubKey(p), [p])])]
    else if g[0].key == p.category then [Bucket(p.category, Add(g[0].items, SubKey(p), p))] + g[1..]
    else [g[0]] + AddPrep(g[1..], p)
  }

  /** The checklist `reduce`: no more categories than items, each category
      once, and inside each a non-empty record filed by sub-category that
      holds only items of that category. */
  function GroupPreparation(ps: seq<PreparationItem>): (g: seq<Group<PreparationItem>>)
    ensures |g| <= |ps| && PrepFiled(g)
  {
    if ps == [] then []
    else
      var g := GroupPreparation(ps[..|ps| - 1]);
      AddPrepFiled(g, ps[|ps| - 1]);
      AddPrep(g, ps[|ps| - 1])
  }

  /** Every item of the record satisfies `ok`. */
  predicate AllItems<V>(g: seq<Bucket<V>>, ok: V -> bool) {
    forall i, m :: 0 <= i < |g| && 0 <= m < |g[i].items| ==> ok(g[i].items[m])
  }

  /** A category entry is well formed: it has a sub-category, its
      sub-categories are filed, and all its items are of its category. */
  predicate GroupFiled(gr: Group<PreparationItem>) {
    && gr.items != []
    && Filed(gr.items, SubKey)
    && AllItems(gr.items, (p: PreparationItem) => p.category == gr.key)
  }

  predicate PrepFiled(g: seq<Group<PreparationItem>>) {
    Distinct(BucketKeys(g)) && forall i :: 0 <= i < |g| ==> GroupFiled(g[i])
  }

  /** `Add` only adds the pushed item. */
  lemma {:induction false} AddAllItems<V>(g: seq<Bucket<V>>, k: string, v: V, ok: V -> bool)
    requires AllItems(g, ok) && ok(v)
    ensures AllItems(Add(g, k, v), ok)
  {
    if g != [] && g[0].key != k {
      AddAllItems(g[1..], k, v, ok);
      var r, t := Add(g, k, v), Add(g[1..], k, v);
      assert forall i :: 1 <= i < |r| ==> r[i] == t[i - 1];
    } else if g != [] {
      var r := Add(g, k, v);
      assert forall i :: 1 <= i < |r| ==> r[i] == g[i];
      assert forall m :: 0 <= m < |r[0].items| ==> r[0].items[m] == if m < |g[0].items| then g[0].items[m] else v;
    }
  }

  /** `AddPrep` keeps the categories in place and appends a new one last. */
  lemma {:induction false} AddPrepKeys(g: seq<Group<PreparationItem>>, p: PreparationItem)
    ensures BucketKeys(AddPrep(g, p)) ==
      if p.category in BucketKeys(g) then BucketKeys(g) else BucketKeys(g) + [p.category]
  {
    var r := AddPrep(g, p);
    if g == [] {
      assert BucketKeys(r) == [p.category];
    } else if g[0].key == p.category {
      assert forall i :: 1 <= i < |r| ==> r[i] == g[i];
      assert BucketKeys(r) == BucketKeys(g);
    } else {
      AddPrepKeys(g[1..], p);
      var t := AddPrep(g[1..], p);
      assert r == [g[0]] + t;
      assert BucketKeys(g) == [g[0].key] + BucketKeys(g[1..]);
      assert BucketKeys(r) == [g[0].key] + BucketKeys(t);
    }
  }

  /** One step of the checklist `reduce` keeps the record well formed. */
  lemma {:induction false} AddPrepFiled(g: seq<Group<PreparationItem>>, p: PreparationItem)
    requires PrepFiled(g)
    ensures PrepFiled(AddPrep(g, p)) && |AddPrep(g, p)| <= |g| + 1
  {
    AddPrepKeys(g, p);
    AddPrepGroups(g, p);
  }

  lemma {:induction false} AddPrepGroups(g: seq<Group<PreparationItem>>, p: PreparationItem)
    requires forall i :: 0 <= i < |g| ==> GroupFiled(g[i])
    ensures forall i :: 0 <= i < |AddPrep(g, p)| ==> GroupFiled(AddPrep(g, p)[i])
    ensures |AddPrep(g, p)| <= |g| + 1
  {
    var r := AddPrep(g, p);
    if g == [] {
      assert BucketKeys(r[0].items) == [SubKey(p)];
    } else if g[0].key == p.category {
      var ok := (q: PreparationItem) => q.category == g[0].key;
      AddFiled(g[0].items, SubKey, p);
      AddAllItems(g[0].items, SubKey(p), p, ok);
      assert r[0] == Bucket(g[0].key, Add(g[0].items, SubKey(p), p));
      assert forall i :: 1 <= i < |r| ==> r[i] == g[i];
    } else {
      AddPrepGroups(g[1..], p);
      var t := AddPrep(g[1..], p);
      assert forall i :: 1 <= i < |r| ==> r[i] == t[i - 1];
    }
  }

  /** Each category entry, grouped once more by sub-category. */
  function MapInner(g: seq<Bucket<PreparationItem>>): (r: seq<Group<PreparationItem>>)
    ensures |r| == |g|
    ensures forall i :: 0 <= i < |g| ==> r[i] == Bucket(g[i].key, GroupBy(g[i].items, SubKey))
  {
    seq(|g|, i requires 0 <= i < |g| => Bucket(g[i].key, GroupBy(g[i].items, SubKey)))
  }

  /** The two-level record is the one-level record by category with each
      entry's items grouped again by sub-category: so categories come in
      first-seen order, sub-categories in first-seen order within their
      category, and items in input order. */
  lemma {:induction false} GroupPreparationTwoLevel(ps: seq<PreparationItem>)
    ensures GroupPreparation(ps) == MapInner(GroupBy(ps, Category))
  {
    if ps != [] {
      var init, p := ps[..|ps| - 1], ps[|ps| - 1];
      GroupPreparationTwoLevel(init);
      AddPrepInner(GroupBy(init, Category), p);
    }
  }

  lemma {:induction false} AddPrepInner(g: seq<Bucket<PreparationItem>>, p: PreparationItem)
    ensures AddPrep(MapInner(g), p) == MapInner(Add(g, p.category, p))
  {
    if g == [] {
      assert GroupBy([p], SubKey) == [Bucket(SubKey(p), [p])] by {
        assert [p][..0] == [];
      }
    } else if g[0].key == p.category {
      AddPrepInnerHere(g, p);
    } else {
      AddPrepInner(g[1..], p);
      AddPrepInnerPast(g, p);
    }
  }

  lemma MapInnerCons(b: Bucket<PreparationItem>, rest: seq<Bucket<PreparationItem>>)
    ensures MapInner([b] + rest) == [Bucket(b.key, GroupBy(b.items, SubKey))] + MapInner(rest)
  {
    assert forall i :: 1 <= i < |rest| + 1 ==> ([b] + rest)[i] == rest[i - 1];
  }

  /** The item joins the first category: its record of sub-categories
      takes the item. */
  lemma AddPrepInnerHere(g: seq<Bucket<PreparationItem>>, p: PreparationItem)
    requires g != [] && g[0].key == p.category
    ensures AddPrep(MapInner(g), p) == MapInner(Add(g, p.category, p))
  {
    var m := MapInner(g);
    var items := g[0].items + [p];
    assert items[..|items| - 1] == g[0].items;
    assert GroupBy(items, SubKey) == Add(GroupBy(g[0].items, SubKey), SubKey(p), p);
    assert g == [g[0]] + g[1..];
    MapInnerCons(g[0], g[1..]);
    MapInnerCons(Bucket(p.category, items), g[1..]);
    assert AddPrep(m, p) == [Bucket(p.category, GroupBy(items, SubKey))] + MapInner(g[1..]);
  }

  /** The item passes the first category by. */
  lemma AddPrepInnerPast(g: seq<Bucket<PreparationItem>>, p: PreparationItem)
    requires g != [] && g[0].key != p.category
    requires AddPrep(MapInner(g[1..]), p) == MapInner(Add(g[1..], p.category, p))
    ensures AddPrep(MapInner(g), p) == MapInner(Add(g, p.category, p))
  {
    assert g == [g[0]] + g[1..];
    MapInnerCons(g[0], g[1..]);
    MapInnerCons(g[0], Add(g[1..], p.category, p));
  }

  /** The sub-heading rule: shown unless the sub-category is `General` and
      it is the only one in its category. */
  function ShowSubHeading(sub: string, groupsInCategory: nat): bool
  {
    sub != "General" || groupsInCategory > 1
  }

  /** The heading text: `General` is shown as 清單, every other name as
      written. A sub-category literally named 清單 therefore reads the same
      as `General`, and no other two names do. */
  function DisplayName(sub: string): (r: string)
    ensures r == "清單" <==> sub == "General" || sub == "清單"
    ensures r != sub ==> sub == "General"
  {
    if sub == "General" then "清單" else sub
  }

  /** Two sub-categories share a heading text exactly when they are the
      same name or are `General` and 清單. */
  lemma DisplayNameCollision(a: string, b: string)
    ensures DisplayName(a) == DisplayName(b) <==>
      a == b || ({a, b} == {"General", "清單"})
  {
  }

  /** A category of the checklist shows no sub-heading exactly when none
      of its items names a sub-category (all fall back to `General`). */
  lemma HiddenHeadingIff(ps: seq<PreparationItem>, i: int)
    requires 0 <= i < |GroupPreparation(ps)|
    ensures var g := GroupPreparation(ps)[i];
      (exists s :: 0 <= s < |g.items| && !ShowSubHeading(g.items[s].key, |g.items|))
      <==> forall j :: 0 <= j < |ps| && ps[j].category == g.key ==> SubKey(ps[j]) == "General"
  {
    var g := GroupPreparation(ps)[i];
    var items := CategoryAt(ps, i);
    var subKeys := KeysOf(items, SubKey);
    var allGeneral := forall j :: 0 <= j < |ps| && ps[j].category == g.key ==> SubKey(ps[j]) == "General";
    assert allGeneral <==> forall m :: 0 <= m < |subKeys| ==> subKeys[m] == "General" by {
      if allGeneral {
        forall m | 0 <= m < |subKeys| ensures subKeys[m] == "General" {
          assert items[m] in ps;
        }
      }
      if forall m :: 0 <= m < |subKeys| ==> subKeys[m] == "General" {
        forall j | 0 <= j < |ps| && ps[j].category == g.key ensures SubKey(ps[j]) == "General" {
          var m :| 0 <= m < |items| && items[m] == ps[j];
          assert subKeys[m] == SubKey(ps[j]);
        }
      }
    }
    OnlyGeneral(subKeys);
  }

  /** The category entry at `i` files the items of its category, in input
      order, by sub-category. */
  lemma CategoryAt(ps: seq<PreparationItem>, i: int) returns (items: seq<PreparationItem>)
    requires 0 <= i < |GroupPreparation(ps)|
    ensures var g := GroupPreparation(ps)[i];
      && items != []
      && g.items == Buckets(FirstSeen(KeysOf(items, SubKey)), items, SubKey)
      && (forall m :: 0 <= m < |items| ==> items[m] in ps && items[m].category == g.key)
      && (forall j :: 0 <= j < |ps| && ps[j].category == g.key ==> ps[j] in items)
  {
    var key := CategoryKey(ps, i);
    items := KeyItems(ps, Category, key);
    GroupByReference(items, SubKey);
    KeyItemsMembers(ps, Category, key);
    var j :| 0 <= j < |ps| && KeysOf(ps, Category)[j] == key;
    assert ps[j] in items;
  }

  /** The category entry at `i` is its key with the items of that key
      grouped by sub-category. */
  lemma CategoryKey(ps: seq<PreparationItem>, i: int) returns (key: string)
    requires 0 <= i < |GroupPreparation(ps)|
    ensures key in KeysOf(ps, Category)
    ensures GroupPreparation(ps)[i] == Bucket(key, GroupBy(KeyItems(ps, Category, key), SubKey))
  {
    GroupPreparationTwoLevel(ps);
    GroupByReference(ps, Category);
    key := FirstSeen(KeysOf(ps, Category))[i];
  }

  /** The items filed under `k` are exactly the items with key `k`. */
  lemma {:induction false} KeyItemsMembers<V>(xs: seq<V>, key: V -> string, k: string)
    ensures forall m :: 0 <= m < |KeyItems(xs, key, k)| ==>
      KeyItems(xs, key, k)[m] in xs && key(KeyItems(xs, key, k)[m]) == k
    ensures forall j :: 0 <= j < |xs| && key(xs[j]) == k ==> xs[j] in KeyItems(xs, key, k)
  {
    if xs != [] {
      var init := xs[..|xs| - 1];
      KeyItemsMembers(init, key, k);
      assert forall j :: 0 <= j < |xs| - 1 ==> xs[j] == init[j];
    }
  }

  /** A non-empty sequence of one repeated key has that key alone. */
  lemma {:induction false} FirstSeenSame(ks: seq<string>, k: string)
    requires ks != [] && forall s :: 0 <= s < |ks| ==> ks[s] == k
    ensures FirstSeen(ks) == [k]
    decreases |ks|
  {
    var init := ks[..|ks| - 1];
    if init != [] {
      FirstSeenSame(init, k);
    }
  }

  /** The first-seen keys are the single key `General` exactly when every
      key is `General`. */
  lemma OnlyGeneral(ks: seq<string>)
    requires ks != []
    ensures var fs := FirstSeen(ks);
      (exists s :: 0 <= s < |fs| && !ShowSubHeading(fs[s], |fs|))
      <==> forall m :: 0 <= m < |ks| ==> ks[m] == "General"
  {
    var fs := FirstSeen(ks);
    assert ks[0] in fs;
    if forall m :: 0 <= m < |ks| ==> ks[m] == "General" {
      FirstSeenSame(ks, "General");
      assert !ShowSubHeading(fs[0], |fs|);
    }
    if exists s :: 0 <= s < |fs| && !ShowSubHeading(fs[s], |fs|) {
      forall m | 0 <= m < |ks| ensures ks[m] == "General" {
        assert ks[m] in fs;
      }
    }
  }

  // ------------------------------------------------------------ item ids

  /** `${category}-${subCat}-${item.item}`: the key of a checklist tick. */
  function ItemId(category: string, sub: string, item: string): (id: string)
    ensures |id| == |category| + |sub| + |item| + 2
    ensures id[..|category|] == category && id[|category|] == '-'
    ensures id[|category| + 1..|category| + 1 + |sub|] == sub && id[|category| + 1 + |sub|] == '-'
    ensures id[|category| + |sub| + 2..] == item
  {
    category + "-" + sub + "-" + item
  }

  /** Ids are unambiguous as long as category and sub-category names hold
      no `-`: the first two dashes of an id are the separators. */
  lemma ItemIdInjective(c1: string, s1: string, i1: string, c2: string, s2: string, i2: string)
    requires '-' !in c1 && '-' !in s1 && '-' !in c2 && '-' !in s2
    requires ItemId(c1, s1, i1) == ItemId(c2, s2, i2)
    ensures c1 == c2 && s1 == s2 && i1 == i2
  {
    assert ItemId(c1, s1, i1) == c1 + "-" + (s1 + "-" + i1);
    assert ItemId(c2, s2, i2) == c2 + "-" + (s2 + "-" + i2);
    FirstDash(c1, s1 + "-" + i1, c2, s2 + "-" + i2);
    FirstDash(s1, i1, s2, i2);
  }

  lemma FirstDash(a1: string, b1: string, a2: string, b2: string)
    requires '-' !in a1 && '-' !in a2
    requires a1 + "-" + b1 == a2 + "-" + b2
    ensures a1 == a2 && b1 == b2
  {
    var s := a1 + "-" + b1;
    assert s[|a1|] == '-' && s[|a2|] == '-';
    assert a1 == s[..|a1|] && a2 == s[..|a2|];
    assert b1 == s[|a1| + 1..] && b2 == s[|a2| + 1..];
  }

  /** With a `-` in a name two different checklist entries share one id,
      so ticking one ticks the other. */
  lemma ItemIdCollision()
    ensures ItemId("a-b", "c", "d") == ItemId("a", "b-c", "d")
  {
  }
}
