/**
 * The merge tab's grouping of multi-part episode files: which directory
 * entries take part, how their identifiers are read, how part files are
 * bucketed by `(season, episode)`, ordered and de-duplicated, and how a free
 * output name is chosen.
 */
module MergeGrouping {
  import opened Wrappers
  import opened Strings
  import opened Sequences
  import opened Directory
  import opened Patterns
  import opened OutputId

  /** `ALLOWED_EXTS`: the video extensions, compared after lower-casing. */
  const AllowedExts: set<string> := {".mp4", ".mkv", ".mov", ".m4v", ".avi", ".webm"}

  predicate HasAllowedExt(name: string) { Lower(Ext(name)) in AllowedExts }

  /** One `(path, part)` entry of a group. */
  datatype Item = Item(path: string, part: string)

  /** A listed name's share in a scan: its identifier and its item. */
  datatype Contribution = Contribution(season: int, episode: int, item: Item)

  /**
   * The condition under which a listed name enters a scan: a regular file
   * with an allowed extension whose identifier has a non-empty part.
   */
  predicate Contributes(directory: string, dir: Dir, name: string, patt: Pattern, c: Contribution) {
    && IsRegularFile(dir, name)
    && HasAllowedExt(name)
    && ParseIdentifier(name, patt) == Some(Ident(c.season, c.episode, c.item.part))
    && c.item.part != ""
    && c.item.path == Join(directory, name)
  }

  function ContributionOf(directory: string, dir: Dir, name: string, patt: Pattern): (r: Option<Contribution>)
    ensures r.Some? ==> Contributes(directory, dir, name, patt, r.value)
    ensures forall c :: Contributes(directory, dir, name, patt, c) ==> r == Some(c)
  {
    if !IsRegularFile(dir, name) || !HasAllowedExt(name) then None
    else
      match ParseIdentifier(name, patt)
      case None => None
      case Some(id) =>
        if id.part == "" then None
        else Some(Contribution(id.season, id.episode, Item(Join(directory, name), id.part)))
  }

  /** The contributions of the listed names, in listing order. */
  function Contributions(directory: string, dir: Dir, names: seq<string>, patt: Pattern): (cs: seq<Contribution>)
    ensures forall c :: c in cs ==> exists i :: 0 <= i < |names| && Contributes(directory, dir, names[i], patt, c)
    ensures forall i, c :: 0 <= i < |names| && Contributes(directory, dir, names[i], patt, c) ==> c in cs
  {
    if |names| == 0 then []
    else
      var rest := Contributions(directory, dir, names[1..], patt);
      var first := ContributionOf(directory, dir, names[0], patt);
      var cs := (if first.Some? then [first.value] else []) + rest;
      var contributes := (n, c) => Contributes(directory, dir, n, patt, c);
      forall c | c in rest
        ensures exists i :: 1 <= i < |names| && contributes(names[i], c)
      {
        var j :| 0 <= j < |names[1..]| && Contributes(directory, dir, names[1..][j], patt, c);
        assert names[1..][j] == names[j + 1];
      }
      forall i, c | 1 <= i < |names| && contributes(names[i], c)
        ensures c in rest
      {
        assert names[1..][i - 1] == names[i];
      }
      ContributionsStep(names, contributes, first, rest, cs);
      cs
  }

  /** `cs` follows the listing: `idx` gives, strictly upward, the name each contribution comes from. */
  ghost predicate ContributorsInOrder(directory: string, dir: Dir, names: seq<string>, patt: Pattern,
                                      cs: seq<Contribution>, idx: seq<int>) {
    PairedInOrder(cs, names, idx, (c, n) => Contributes(directory, dir, n, patt, c))
  }

  /** The scan collects contributions in listing order, each from its own name. */
  lemma ContributionsInOrder(directory: string, dir: Dir, names: seq<string>, patt: Pattern)
    ensures exists idx :: ContributorsInOrder(directory, dir, names, patt, Contributions(directory, dir, names, patt), idx)
  {
    var idx := ContributionsPicks(directory, dir, names, patt);
  }

  lemma {:induction false} ContributionsPicks(directory: string, dir: Dir, names: seq<string>, patt: Pattern)
    returns (idx: seq<int>)
    ensures ContributorsInOrder(directory, dir, names, patt, Contributions(directory, dir, names, patt), idx)
  {
    if |names| == 0 {
      idx := [];
    } else {
      var tail := Contributions(directory, dir, names[1..], patt);
      var rest := ContributionsPicks(directory, dir, names[1..], patt);
      var first := ContributionOf(directory, dir, names[0], patt);
      var rel := (c, n) => Contributes(directory, dir, n, patt, c);
      if first.Some? {
        assert Contributions(directory, dir, names, patt) == [first.value] + tail;
        PairedKeep(first.value, tail, names, rest, rel);
        idx := [0] + Shift(rest);
      } else {
        assert Contributions(directory, dir, names, patt) == tail;
        PairedSkip(tail, names, rest, rel);
        idx := Shift(rest);
      }
    }
  }

  /**
   * The first name's contribution, if any, in front of the rest's, for any
   * relation `contributes` between names and what they contribute.
   */
  lemma ContributionsStep<N, C>(names: seq<N>, contributes: (N, C) -> bool,
                                first: Option<C>, rest: seq<C>, cs: seq<C>)
    requires |names| > 0
    requires first.Some? ==> contributes(names[0], first.value)
    requires forall c :: contributes(names[0], c) ==> first == Some(c)
    requires forall c :: c in rest ==> exists i :: 1 <= i < |names| && contributes(names[i], c)
    requires forall i, c :: 1 <= i < |names| && contributes(names[i], c) ==> c in rest
    requires cs == (if first.Some? then [first.value] else []) + rest
    ensures forall c :: c in cs ==> exists i :: 0 <= i < |names| && contributes(names[i], c)
    ensures forall i, c :: 0 <= i < |names| && contributes(names[i], c) ==> c in cs
  {
  }

  /** Python's order on `(part, path.lower())`. */
  predicate ItemLe(a: Item, b: Item) {
    StrLt(a.part, b.part) || (a.part == b.part && StrLe(Lower(a.path), Lower(b.path)))
  }

  lemma ItemLeIsTotalPreorder()
    ensures TotalPreorder(ItemLe)
  {
    forall a: Item, b: Item
      ensures ItemLe(a, b) || ItemLe(b, a)
    {
      StrLtTotal(a.part, b.part);
      StrLtTotal(Lower(a.path), Lower(b.path));
    }
    forall a: Item, b: Item, c: Item | ItemLe(a, b) && ItemLe(b, c)
      ensures ItemLe(a, c)
    {
      if StrLt(a.part, b.part) && StrLt(b.part, c.part) {
        StrLtTransitive(a.part, b.part, c.part);
      }
      if StrLt(Lower(a.path), Lower(b.path)) && StrLt(Lower(b.path), Lower(c.path)) {
        StrLtTransitive(Lower(a.path), Lower(b.path), Lower(c.path));
      }
    }
  }

  /** The items of the contributions with the requested identifier, in listing order. */
  function Bucket(cs: seq<Contribution>, season: int, episode: int): (r: seq<Item>)
    ensures forall x :: x in r <==> Contribution(season, episode, x) in cs
  {
    if |cs| == 0 then []
    else
      var rest := Bucket(cs[1..], season, episode);
      assert forall c :: c in cs <==> c == cs[0] || c in cs[1..];
      if cs[0].season == season && cs[0].episode == episode then [cs[0].item] + rest else rest
  }

  /** Each item occurs in a bucket exactly as often as its contribution occurs in the scan. */
  lemma {:induction false} BucketCounts(cs: seq<Contribution>, season: int, episode: int, x: Item)
    ensures multiset(Bucket(cs, season, episode))[x] == multiset(cs)[Contribution(season, episode, x)]
  {
    if |cs| > 0 {
      BucketCounts(cs[1..], season, episode, x);
      MultisetCons(cs);
    }
  }

  /**
   * `scan_matching_files`: the parts of one requested episode, sorted by
   * `(part, path.lower())`, not de-duplicated.
   */
  function ScanMatchingFiles(directory: string, dir: Dir, names: seq<string>, patt: Pattern, season: int, episode: int): seq<Item>
  {
    Sort(Bucket(Contributions(directory, dir, names, patt), season, episode), ItemLe)
  }

  /**
   * Exactly the contributing names of the requested episode appear, each as
   * often as it is listed, sorted by `(part, path.lower())`.
   */
  lemma ScanMatchingFilesSpec(directory: string, dir: Dir, names: seq<string>, patt: Pattern, season: int, episode: int)
    ensures var r := ScanMatchingFiles(directory, dir, names, patt, season, episode);
      && SortedBy(r, ItemLe)
      && (forall x :: multiset(r)[x] == multiset(Contributions(directory, dir, names, patt))[Contribution(season, episode, x)])
      && (forall x :: x in r ==>
            exists i :: 0 <= i < |names| && Contributes(directory, dir, names[i], patt, Contribution(season, episode, x)))
      && (forall i, x :: 0 <= i < |names| && Contributes(directory, dir, names[i], patt, Contribution(season, episode, x)) ==> x in r)
  {
    var cs := Contributions(directory, dir, names, patt);
    var b := Bucket(cs, season, episode);
    var r := Sort(b, ItemLe);
    ItemLeIsTotalPreorder();
    SortSorted(b, ItemLe);
    forall x
      ensures multiset(r)[x] == multiset(cs)[Contribution(season, episode, x)]
    {
      BucketCounts(cs, season, episode, x);
    }
    forall x | x in r
      ensures x in b
    {
      assert x in multiset(r);
    }
    forall x | x in b
      ensures x in r
    {
      assert x in multiset(b);
    }
  }

  /**
   * The sort in `scan_matching_files` is stable: items with the same
   * `(part, path.lower())` keep the order in which the scan collected them.
   */
  lemma ScanMatchingFilesStable(directory: string, dir: Dir, names: seq<string>, patt: Pattern, season: int, episode: int, c: Item)
    ensures SameKey(ScanMatchingFiles(directory, dir, names, patt, season, episode), ItemLe, c)
         == SameKey(Bucket(Contributions(directory, dir, names, patt), season, episode), ItemLe, c)
  {
    ItemLeIsTotalPreorder();
    SortStable(Bucket(Contributions(directory, dir, names, patt), season, episode), ItemLe, c);
  }

  /**
   * The de-duplication loop of `scan_all_groups`: an item is kept when its
   * part has not been seen yet.
   */
  function DedupParts(items: seq<Item>, seen: set<string>): seq<Item>
  {
    if |items| == 0 then []
    else if items[0].part in seen then DedupParts(items[1..], seen)
    else [items[0]] + DedupParts(items[1..], seen + {items[0].part})
  }

  /** Only items of the input with unseen parts are kept. */
  lemma {:induction false} DedupSound(items: seq<Item>, seen: set<string>)
    ensures forall x :: x in DedupParts(items, seen) ==> x in items && x.part !in seen
  {
    if |items| > 0 {
      if items[0].part in seen {
        DedupSound(items[1..], seen);
      } else {
        DedupSound(items[1..], seen + {items[0].part});
      }
    }
  }

  predicate PartsDistinct(r: seq<Item>) {
    forall i, j :: 0 <= i < j < |r| ==> r[i].part != r[j].part
  }

  /** Putting an item in front of items with other parts keeps the parts distinct. */
  lemma ConsPartsDistinct(x: Item, rest: seq<Item>)
    requires PartsDistinct(rest)
    requires forall y :: y in rest ==> y.part != x.part
    ensures PartsDistinct([x] + rest)
  {
    var r := [x] + rest;
    forall i, j | 0 <= i < j < |r|
      ensures r[i].part != r[j].part
    {
      assert r[j] == rest[j - 1];
      if i == 0 {
        assert r[j] in rest;
      } else {
        assert r[i] == rest[i - 1];
      }
    }
  }

  /** Kept items have pairwise different parts. */
  lemma {:induction false} DedupDistinctParts(items: seq<Item>, seen: set<string>)
    ensures PartsDistinct(DedupParts(items, seen))
  {
    if |items| > 0 {
      if items[0].part in seen {
        DedupDistinctParts(items[1..], seen);
      } else {
        var seen' := seen + {items[0].part};
        DedupDistinctParts(items[1..], seen');
        DedupSound(items[1..], seen');
        ConsPartsDistinct(items[0], DedupParts(items[1..], seen'));
      }
    }
  }

  /** Every unseen part of the input keeps one item. */
  lemma {:induction false} DedupComplete(items: seq<Item>, seen: set<string>)
    ensures forall x :: x in items && x.part !in seen ==> exists y :: y in DedupParts(items, seen) && y.part == x.part
  {
    if |items| > 0 {
      var r := DedupParts(items, seen);
      if items[0].part in seen {
        DedupComplete(items[1..], seen);
        forall x | x in items && x.part !in seen
          ensures exists y :: y in r && y.part == x.part
        {
          assert x in items[1..];
        }
      } else {
        DedupComplete(items[1..], seen + {items[0].part});
        forall x | x in items && x.part !in seen
          ensures exists y :: y in r && y.part == x.part
        {
          if x.part == items[0].part {
            assert items[0] in r;
          } else {
            assert x in items[1..];
            var y :| y in DedupParts(items[1..], seen + {items[0].part}) && y.part == x.part;
            assert y in r;
          }
        }
      }
    }
  }

  /** A kept item is the first item of the input with its part. */
  lemma {:induction false} DedupKeepsFirst(items: seq<Item>, seen: set<string>)
    ensures forall y :: y in DedupParts(items, seen) ==>
      exists i :: 0 <= i < |items| && items[i] == y && forall j :: 0 <= j < i ==> items[j].part != y.part
  {
    if |items| > 0 {
      var r := DedupParts(items, seen);
      var seen' := if items[0].part in seen then seen else seen + {items[0].part};
      var rest := DedupParts(items[1..], seen');
      DedupKeepsFirst(items[1..], seen');
      DedupSound(items[1..], seen');
      forall y | y in r
        ensures exists i :: 0 <= i < |items| && items[i] == y && forall j :: 0 <= j < i ==> items[j].part != y.part
      {
        if items[0].part !in seen && y == items[0] {
          assert items[0] == y;
        } else {
          assert y in rest;
          assert y.part !in seen';
          var i :| 0 <= i < |items[1..]| && items[1..][i] == y && forall j :: 0 <= j < i ==> items[1..][j].part != y.part;
          assert items[i + 1] == y;
          forall j | 0 <= j < i + 1
            ensures items[j].part != y.part
          {
            if j > 0 {
              assert items[j] == items[1..][j - 1];
            }
          }
        }
      }
    }
  }

  /** Kept items stay in input order, so a sorted input gives a sorted result. */
  lemma {:induction false} DedupSorted(items: seq<Item>, seen: set<string>)
    requires SortedBy(items, ItemLe)
    ensures SortedBy(DedupParts(items, seen), ItemLe)
  {
    if |items| > 0 {
      assert SortedBy(items[1..], ItemLe);
      if items[0].part in seen {
        DedupSorted(items[1..], seen);
      } else {
        var seen' := seen + {items[0].part};
        var rest := DedupParts(items[1..], seen');
        DedupSorted(items[1..], seen');
        DedupSound(items[1..], seen');
        SortedHead(items, ItemLe);
        SortedCons(items[0], rest, ItemLe);
      }
    }
  }

  /** A kept item's path is, lower-cased, the least among the items with its part. */
  lemma DedupKeepsLeastPath(items: seq<Item>, y: Item, x: Item)
    requires SortedBy(items, ItemLe)
    requires y in DedupParts(items, {}) && x in items && x.part == y.part
    ensures StrLe(Lower(y.path), Lower(x.path))
  {
    DedupKeepsFirst(items, {});
    var i :| 0 <= i < |items| && items[i] == y && forall j :: 0 <= j < i ==> items[j].part != y.part;
    var j :| 0 <= j < |items| && items[j] == x;
    if i < j {
      assert ItemLe(items[i], items[j]);
      StrLtIrreflexive(y.part);
    }
  }

  /** An episode key `(season, episode)` and Python's order on such tuples. */
  type Key = (int, int)

  predicate KeyLe(a: Key, b: Key) { a.0 < b.0 || (a.0 == b.0 && a.1 <= b.1) }

  function KeyOf(c: Contribution): Key { (c.season, c.episode) }

  /** The keys of a `dict` filled by `setdefault` in listing order: first-seen order, no repeats. */
  function KeysInOrder(cs: seq<Contribution>): (r: seq<Key>)
    ensures Distinct(r)
    ensures forall c :: c in cs ==> KeyOf(c) in r
    ensures forall k :: k in r ==> exists c :: c in cs && KeyOf(c) == k
  {
    if |cs| == 0 then []
    else
      var prefix := cs[..|cs| - 1];
      var last := cs[|cs| - 1];
      var prev := KeysInOrder(prefix);
      assert cs == prefix + [last];
      assert forall c :: c in cs <==> c in prefix || c == last;
      if KeyOf(last) in prev then prev else prev + [KeyOf(last)]
  }

  /** One result entry of `scan_all_groups`. */
  datatype Group = Group(season: int, episode: int, items: seq<Item>)

  function GroupOf(cs: seq<Contribution>, k: Key): Group {
    Group(k.0, k.1, DedupParts(Sort(Bucket(cs, k.0, k.1), ItemLe), {}))
  }

  /** The groups built from a sequence of contributions, sorted by key. */
  function GroupsOf(cs: seq<Contribution>): seq<Group> {
    var keys := Sort(KeysInOrder(cs), KeyLe);
    seq(|keys|, i requires 0 <= i < |keys| => GroupOf(cs, keys[i]))
  }

  /**
   * `scan_all_groups`: every contributing name is bucketed under its
   * `(season, episode)`; each bucket is sorted by `(part, path.lower())` and
   * keeps the first item per part; the groups are sorted by key.
   */
  function ScanAllGroups(directory: string, dir: Dir, names: seq<string>, patt: Pattern): seq<Group> {
    GroupsOf(Contributions(directory, dir, names, patt))
  }

  lemma GroupsAscending(cs: seq<Contribution>)
    ensures var groups := GroupsOf(cs);
      forall i, j :: 0 <= i < j < |groups| ==>
        groups[i].season < groups[j].season
        || (groups[i].season == groups[j].season && groups[i].episode < groups[j].episode)
  {
    var keys := Sort(KeysInOrder(cs), KeyLe);
    assert TotalPreorder(KeyLe);
    SortSorted(KeysInOrder(cs), KeyLe);
    DistinctPermutation(KeysInOrder(cs), keys);
    StrictKeys(keys);
    var groups := GroupsOf(cs);
    assert forall i :: 0 <= i < |groups| ==> groups[i].season == keys[i].0 && groups[i].episode == keys[i].1;
  }

  /** Sorted keys without repeats ascend strictly. */
  lemma StrictKeys(keys: seq<Key>)
    requires SortedBy(keys, KeyLe) && Distinct(keys)
    ensures forall i, j :: 0 <= i < j < |keys| ==>
      keys[i].0 < keys[j].0 || (keys[i].0 == keys[j].0 && keys[i].1 < keys[j].1)
  {
    forall i, j | 0 <= i < j < |keys|
      ensures keys[i].0 < keys[j].0 || (keys[i].0 == keys[j].0 && keys[i].1 < keys[j].1)
    {
      assert KeyLe(keys[i], keys[j]) && keys[i] != keys[j];
    }
  }

  lemma GroupsParts(cs: seq<Contribution>)
    ensures forall g :: g in GroupsOf(cs) ==>
      |g.items| > 0 && forall i, j :: 0 <= i < j < |g.items| ==> StrLt(g.items[i].part, g.items[j].part)
  {
    var keys := Sort(KeysInOrder(cs), KeyLe);
    var groups := GroupsOf(cs);
    ItemLeIsTotalPreorder();
    forall g | g in groups
      ensures |g.items| > 0 && forall i, j :: 0 <= i < j < |g.items| ==> StrLt(g.items[i].part, g.items[j].part)
    {
      var n :| 0 <= n < |keys| && groups[n] == g;
      GroupParts(cs, keys[n]);
    }
  }

  lemma GroupParts(cs: seq<Contribution>, k: Key)
    requires k in multiset(Sort(KeysInOrder(cs), KeyLe))
    ensures var g := GroupOf(cs, k);
      |g.items| > 0 && forall i, j :: 0 <= i < j < |g.items| ==> StrLt(g.items[i].part, g.items[j].part)
  {
    ItemLeIsTotalPreorder();
    assert k in KeysInOrder(cs);
    var c :| c in cs && KeyOf(c) == k;
    var bucket := Bucket(cs, k.0, k.1);
    var sorted := Sort(bucket, ItemLe);
    assert c.item in multiset(bucket);
    assert |sorted| > 0;
    SortSorted(bucket, ItemLe);
    DedupSorted(sorted, {});
    DedupDistinctParts(sorted, {});
    var items := DedupParts(sorted, {});
    assert |items| > 0;
    forall i, j | 0 <= i < j < |items|
      ensures StrLt(items[i].part, items[j].part)
    {
      assert ItemLe(items[i], items[j]);
      assert items[i].part != items[j].part;
    }
  }

  lemma GroupsSound(cs: seq<Contribution>)
    ensures forall g, x :: g in GroupsOf(cs) && x in g.items ==> Contribution(g.season, g.episode, x) in cs
  {
    var keys := Sort(KeysInOrder(cs), KeyLe);
    var groups := GroupsOf(cs);
    forall g, x | g in groups && x in g.items
      ensures Contribution(g.season, g.episode, x) in cs
    {
      var n :| 0 <= n < |groups| && groups[n] == g;
      assert g == GroupOf(cs, keys[n]);
      GroupSound(cs, keys[n], x);
    }
  }

  /** Every item of a group comes from a contribution under the group's key. */
  lemma GroupSound(cs: seq<Contribution>, k: Key, x: Item)
    requires x in GroupOf(cs, k).items
    ensures Contribution(k.0, k.1, x) in cs
  {
    var sorted := Sort(Bucket(cs, k.0, k.1), ItemLe);
    DedupSound(sorted, {});
    assert x in multiset(sorted);
  }

  /**
   * `c` has a group under its key holding its part, and the item kept for
   * that part has a lower-cased path no greater than `c`'s.
   */
  predicate Represented(groups: seq<Group>, c: Contribution) {
    exists g :: g in groups && g.season == c.season && g.episode == c.episode && KeepsPart(g, c.item)
  }

  predicate KeepsPart(g: Group, x: Item) {
    exists y :: y in g.items && y.part == x.part && StrLe(Lower(y.path), Lower(x.path))
  }

  lemma GroupsComplete(cs: seq<Contribution>)
    ensures forall c :: c in cs ==>
      Represented(GroupsOf(cs), c)
  {
    var keys := Sort(KeysInOrder(cs), KeyLe);
    var groups := GroupsOf(cs);
    forall c | c in cs
      ensures Represented(groups, c)
    {
      assert KeyOf(c) in multiset(KeysInOrder(cs));
      var n :| 0 <= n < |keys| && keys[n] == KeyOf(c);
      GroupKeepsPart(cs, c);
      assert groups[n] == GroupOf(cs, KeyOf(c));
      assert groups[n] in groups;
    }
  }

  /** The group under a contribution's key keeps an item with its part. */
  lemma GroupKeepsPart(cs: seq<Contribution>, c: Contribution)
    requires c in cs
    ensures KeepsPart(GroupOf(cs, KeyOf(c)), c.item)
  {
    ItemLeIsTotalPreorder();
    var bucket := Bucket(cs, c.season, c.episode);
    var sorted := Sort(bucket, ItemLe);
    assert c.item in multiset(sorted);
    SortSorted(bucket, ItemLe);
    DedupComplete(sorted, {});
    var y :| y in DedupParts(sorted, {}) && y.part == c.item.part;
    DedupKeepsLeastPath(sorted, y, c.item);
  }

  /** The groups come in strictly ascending `(season, episode)` order, so no key repeats. */
  lemma ScanAllGroupsAscending(directory: string, dir: Dir, names: seq<string>, patt: Pattern)
    ensures var groups := ScanAllGroups(directory, dir, names, patt);
      forall i, j :: 0 <= i < j < |groups| ==>
        groups[i].season < groups[j].season
        || (groups[i].season == groups[j].season && groups[i].episode < groups[j].episode)
  {
    GroupsAscending(Contributions(directory, dir, names, patt));
  }

  /** Every group is non-empty and lists its parts in strictly ascending order. */
  lemma ScanAllGroupsParts(directory: string, dir: Dir, names: seq<string>, patt: Pattern)
    ensures forall g :: g in ScanAllGroups(directory, dir, names, patt) ==>
      |g.items| > 0 && forall i, j :: 0 <= i < j < |g.items| ==> StrLt(g.items[i].part, g.items[j].part)
  {
    GroupsParts(Contributions(directory, dir, names, patt));
  }

  /** Every item of a group comes from a listed name that contributes under the group's key. */
  lemma ScanAllGroupsSound(directory: string, dir: Dir, names: seq<string>, patt: Pattern)
    ensures forall g, x :: g in ScanAllGroups(directory, dir, names, patt) && x in g.items ==>
      exists i :: 0 <= i < |names| && Contributes(directory, dir, names[i], patt, Contribution(g.season, g.episode, x))
  {
    GroupsSound(Contributions(directory, dir, names, patt));
  }

  /**
   * Every contributing name is represented: its key has a group holding its
   * part, and the kept item's path is, lower-cased, no greater than its own.
   */
  lemma ScanAllGroupsComplete(directory: string, dir: Dir, names: seq<string>, patt: Pattern)
    ensures forall i, c :: 0 <= i < |names| && Contributes(directory, dir, names[i], patt, c) ==>
      Represented(ScanAllGroups(directory, dir, names, patt), c)
  {
    var cs := Contributions(directory, dir, names, patt);
    GroupsComplete(cs);
    forall i, c | 0 <= i < |names| && Contributes(directory, dir, names[i], patt, c)
      ensures Represented(ScanAllGroups(directory, dir, names, patt), c)
    {
      assert c in cs;
    }
  }

  /** `f"{base} ({i}){ext}"`, the `i`-th alternative to a taken output path. */
  function Candidate(base: string, i: nat, ext: string): string {
    base + " (" + Decimal(i) + ")" + ext
  }

  /** Different numbers give different candidates. */
  lemma CandidateInjective(base: string, ext: string, i: nat, j: nat)
    requires Candidate(base, i, ext) == Candidate(base, j, ext)
    ensures i == j
  {
    var di, dj := Decimal(i), Decimal(j);
    var lo := |base| + 2;
    assert |di| == |dj|;
    assert Candidate(base, i, ext)[lo..lo + |di|] == di;
    assert Candidate(base, j, ext)[lo..lo + |dj|] == dj;
  }

  function CandidateSet(base: string, ext: string, n: nat): set<string> {
    set j: nat | 2 <= j < n :: Candidate(base, j, ext)
  }

  lemma {:induction false} CandidateSetSize(base: string, ext: string, n: nat)
    requires n >= 2
    ensures |CandidateSet(base, ext, n)| == n - 2
  {
    if n > 2 {
      CandidateSetSize(base, ext, n - 1);
      var c := Candidate(base, n - 1, ext);
      if c in CandidateSet(base, ext, n - 1) {
        var j: nat :| 2 <= j < n - 1 && Candidate(base, j, ext) == c;
        CandidateInjective(base, ext, j, n - 1);
      }
      assert CandidateSet(base, ext, n) == CandidateSet(base, ext, n - 1) + {c};
    } else {
      assert CandidateSet(base, ext, n) == {};
    }
  }

  /** If candidates `2 .. n-1` are all taken, at least `n - 2` paths are taken. */
  lemma TakenCandidates(base: string, ext: string, n: nat, taken: set<string>)
    requires n >= 2
    requires forall j: nat :: 2 <= j < n ==> Candidate(base, j, ext) in taken
    ensures n - 2 <= |taken|
  {
    CandidateSetSize(base, ext, n);
    SubsetSize(CandidateSet(base, ext, n), taken);
  }

  /**
   * `next_available_name`: the path itself when nothing exists there,
   * otherwise the candidate with the smallest number from 2 on that does not
   * exist. `taken` stands for the paths `os.path.exists` reports.
   */
  method NextAvailableName(path: string, taken: set<string>) returns (r: string)
    ensures r !in taken
    ensures path !in taken ==> r == path
    ensures path in taken ==>
      exists i: nat :: 2 <= i && r == Candidate(SplitExt(path).0, i, SplitExt(path).1)
        && forall j: nat :: 2 <= j < i ==> Candidate(SplitExt(path).0, j, SplitExt(path).1) in taken
  {
    if path !in taken {
      return path;
    }
    var base, ext := SplitExt(path).0, SplitExt(path).1;
    var i: nat := 2;
    while Candidate(base, i, ext) in taken
      invariant 2 <= i
      invariant forall j: nat :: 2 <= j < i ==> Candidate(base, j, ext) in taken
      decreases |taken| + 2 - i
    {
      TakenCandidates(base, ext, i + 1, taken);
      i := i + 1;
    }
    r := Candidate(base, i, ext);
  }

  /**
   * The output path of one batch group: `<id>.mp4` in the directory, moved
   * aside to the next free name when something exists there and
   * `overwriteAll` is off.
   */
  method ChooseOutputPath(directory: string, season: int, episode: int, shape: Shape, taken: set<string>, overwriteAll: bool)
    returns (outputPath: string)
    ensures var first := Join(directory, FormatOutputId(season, episode, shape) + ".mp4");
      && (overwriteAll || first !in taken ==> outputPath == first)
      && (!overwriteAll ==> outputPath !in taken)
      && (!overwriteAll && first in taken ==>
            exists i: nat :: 2 <= i && outputPath == Candidate(SplitExt(first).0, i, SplitExt(first).1)
              && forall j: nat :: 2 <= j < i ==> Candidate(SplitExt(first).0, j, SplitExt(first).1) in taken)
  {
    outputPath := Join(directory, FormatOutputId(season, episode, shape) + ".mp4");
    if outputPath in taken && !overwriteAll {
      outputPath := NextAvailableName(outputPath, taken);
    }
  }

  lemma SmallDecimal(n: nat)
    requires n <= 99
    ensures |Decimal(n)| <= 2
  {
    if n >= 10 {
      assert Decimal(n) == Decimal(n / 10) + [DigitChar(n % 10)];
    }
  }

  /** "S", `sl` season digits, 'E', two episode digits, then a '.' */
  predicate DefaultLayout(name: string, sl: nat, season: nat, episode: nat) {
    && 1 <= sl <= 2 && |name| > sl + 4
    && name[0] == 'S' && name[1 + sl] == 'E' && name[sl + 4] == '.'
    && AllDigits(name[1..1 + sl]) && DigitsValue(name[1..1 + sl]) == season
    && AllDigits(name[2 + sl..4 + sl]) && DigitsValue(name[2 + sl..4 + sl]) == episode
  }

  lemma OutputLayout(name: string, season: nat, episode: nat, shape: Shape)
    requires season <= 99 && episode <= 99
    requires shape.separator == "E" && 1 <= shape.seasonWidth <= 2 && shape.episodeWidth == 2
    requires name == FormatOutputId(season, episode, shape) + ".mp4"
    ensures DefaultLayout(name, FieldLength(season, shape.seasonWidth), season, episode)
  {
    var d1 := PadDigits(season, shape.seasonWidth);
    var d2 := PadDigits(episode, 2);
    FormatOutputIdPieces(season, episode, shape);
    assert 1 <= |d1| <= 2 && |d2| == 2 by {
      SmallDecimal(season);
      SmallDecimal(episode);
    }
    PiecesLayout(d1, d2, season, episode, name);
  }

  /** `S` + season digits + `E` + two episode digits + `.mp4` has the default layout. */
  lemma PiecesLayout(d1: string, d2: string, season: nat, episode: nat, name: string)
    requires 1 <= |d1| <= 2 && AllDigits(d1) && DigitsValue(d1) == season
    requires |d2| == 2 && AllDigits(d2) && DigitsValue(d2) == episode
    requires name == "S" + d1 + "E" + d2 + ".mp4"
    ensures DefaultLayout(name, |d1|, season, episode)
  {
    var sl := |d1|;
    assert name[1..1 + sl] == d1;
    assert name[2 + sl..4 + sl] == d2;
    assert name[1 + sl] == 'E' && name[sl + 4] == '.';
  }

  lemma LayoutMatches(name: string, sl: nat, season: nat, episode: nat)
    requires DefaultLayout(name, sl, season, episode)
    ensures MergeDefaultAt(name, 0) == Some(Hit(season, episode, ""))
  {
    assert IsDigit(name[1 + sl..2 + sl + 2][1]);
    assert IsDigit(name[2 + sl..4 + sl][0]) && IsDigit(name[2 + sl..4 + sl][1]);
    assert IsDigit(name[1..1 + sl][0]);
    if sl == 2 {
      assert IsDigit(name[1..1 + sl][1]);
    }
  }

  /**
   * A merged output named with the default separator, a season field of at
   * most two digits and a two-digit episode field is read back by the
   * default pattern as its own episode without a part, so a later batch run
   * never takes it for a part file.
   */
  lemma MergedOutputIsNotAPart(directory: string, dir: Dir, name: string, season: nat, episode: nat, shape: Shape)
    requires season <= 99 && episode <= 99
    requires shape.separator == "E" && 1 <= shape.seasonWidth <= 2 && shape.episodeWidth == 2
    requires name == FormatOutputId(season, episode, shape) + ".mp4"
    ensures ParseIdentifier(name, MergeDefault) == Some(Ident(season, episode, ""))
    ensures forall c :: !Contributes(directory, dir, name, MergeDefault, c)
  {
    OutputLayout(name, season, episode, shape);
    LayoutMatches(name, FieldLength(season, shape.seasonWidth), season, episode);
    assert Search(MergeDefault, name) == Some(Hit(season, episode, ""));
    assert Upper("") == "";
  }
}
