// Case-insensitive sector name collision resolution of the snapshot script
// (scripts/map_update.py, the block run after a milieu's universe listing is
// downloaded): sectors whose first names differ only in case would share a
// file name on Windows, so all but at most one of them get a name carrying
// their position.
module NameCollisions {
  import opened Wrappers
  import opened Strings

  /**
   * One entry of a universe listing: its names (the first one is the
   * canonical name), its position and its optional space-separated tags.
   */
  datatype Sector = Sector(names: seq<string>, x: int, y: int, tags: Option<string>)

  datatype ResolveError =
    | NoNames(index: nat)       // a sector with an empty `Names` list
    | NameInUse(name: string)   // a disambiguated name, lower-cased, is already a grouping key

  /** The rewritten listing and the map from each new name to the name it replaced. */
  datatype Resolution = Resolution(sectors: seq<Sector>, nameMappings: map<string, string>)

  predicate Named(s: Sector)
  {
    |s.names| > 0
  }

  predicate NamedBelow(sectors: seq<Sector>, n: nat)
  {
    forall j {:trigger Named(sectors[j])} :: 0 <= j < n && j < |sectors| ==> Named(sectors[j])
  }

  predicate AllNamed(sectors: seq<Sector>)
  {
    NamedBelow(sectors, |sectors|)
  }

  /** The canonical name; every sector the resolution gets past its grouping has one. */
  function FirstName(s: Sector): string
  {
    if |s.names| > 0 then s.names[0] else ""
  }

  /** The grouping key: the lower-cased first name. */
  function Key(s: Sector): string
  {
    Lower(FirstName(s))
  }

  /** Some sector has the key `key`. */
  predicate IsKey(sectors: seq<Sector>, key: string)
  {
    KeyBelow(sectors, key, |sectors|)
  }

  /** Official (or in review): "OTU" is one of the space-separated tags; no tags count as "". */
  predicate IsOfficial(s: Sector): (b: bool)
    ensures b ==> s.tags.Some?
  {
    "OTU" in Split(if s.tags.Some? then s.tags.value else "", ' ')
  }

  /** " (<X>, <Y>)", the part a disambiguated name adds to the canonical name. */
  function PositionSuffix(x: int, y: int): string
  {
    " (" + IntToString(x) + ", " + IntToString(y) + ")"
  }

  function Disambiguated(s: Sector): string
  {
    FirstName(s) + PositionSuffix(s.x, s.y)
  }

  /** Some other sector has the same first name up to case. */
  predicate Collides(sectors: seq<Sector>, i: int)
    requires 0 <= i < |sectors|
  {
    exists j :: 0 <= j < |sectors| && j != i && Key(sectors[j]) == Key(sectors[i])
  }

  /** Official, and no other sector with the same key is. */
  predicate SoleOfficial(sectors: seq<Sector>, i: int)
    requires 0 <= i < |sectors|
  {
    IsOfficial(sectors[i]) &&
    forall j :: 0 <= j < |sectors| && j != i && Key(sectors[j]) == Key(sectors[i]) ==> !IsOfficial(sectors[j])
  }

  /** A colliding sector is renamed unless it is the one official sector of its group. */
  predicate Renamed(sectors: seq<Sector>, i: int)
    requires 0 <= i < |sectors|
  {
    Collides(sectors, i) && !SoleOfficial(sectors, i)
  }

  /** The disambiguated name goes in front, so the old first name becomes the first alternate. */
  function Rename(s: Sector): Sector
  {
    s.(names := [Disambiguated(s)] + s.names)
  }

  function ResolvedSector(sectors: seq<Sector>, i: int): Sector
    requires 0 <= i < |sectors|
  {
    if Renamed(sectors, i) then Rename(sectors[i]) else sectors[i]
  }

  /** Renamed, but the new name, lower-cased, is some sector's key already: fatal. */
  predicate Clash(sectors: seq<Sector>, i: int)
    requires 0 <= i < |sectors|
  {
    Renamed(sectors, i) && IsKey(sectors, Lower(Disambiguated(sectors[i])))
  }

  /**
   * `m` maps the new name of every renamed sector to its old first name, and
   * holds nothing else.
   */
  predicate IsNameMapping(sectors: seq<Sector>, m: map<string, string>)
  {
    (forall i :: 0 <= i < |sectors| && Renamed(sectors, i) ==>
      Disambiguated(sectors[i]) in m && m[Disambiguated(sectors[i])] == FirstName(sectors[i]))
    && (forall d :: d in m ==>
      exists i :: 0 <= i < |sectors| && Renamed(sectors, i) && Disambiguated(sectors[i]) == d)
  }

  predicate Increasing(list: seq<int>)
  {
    forall a, b :: 0 <= a < b < |list| ==> list[a] < list[b]
  }

  /** The indices below `n` of the sectors with key `key`, ascending: one group of the grouping. */
  function KeyIndices(sectors: seq<Sector>, key: string, n: nat): (group: seq<int>)
    requires n <= |sectors|
    ensures forall t :: 0 <= t < |group| ==> 0 <= group[t] < n && Key(sectors[group[t]]) == key
    ensures forall j {:trigger j in group} :: 0 <= j < n && Key(sectors[j]) == key ==> j in group
  {
    if n == 0 then []
    else if Key(sectors[n - 1]) == key then KeyIndices(sectors, key, n - 1) + [n - 1]
    else KeyIndices(sectors, key, n - 1)
  }

  lemma {:induction false} KeyIndicesIncreasing(sectors: seq<Sector>, key: string, n: nat)
    requires n <= |sectors|
    ensures Increasing(KeyIndices(sectors, key, n))
  {
    if n > 0 {
      KeyIndicesIncreasing(sectors, key, n - 1);
      var init := KeyIndices(sectors, key, n - 1);
      if Key(sectors[n - 1]) == key {
        assert KeyIndices(sectors, key, n) == init + [n - 1];
        AppendIncreasing(init, n - 1);
      } else {
        assert KeyIndices(sectors, key, n) == init;
      }
    }
  }

  lemma AppendIncreasing(list: seq<int>, x: int)
    requires Increasing(list)
    requires forall t :: 0 <= t < |list| ==> list[t] < x
    ensures Increasing(list + [x])
  {
    var list' := list + [x];
    forall a, b | 0 <= a < b < |list'|
      ensures list'[a] < list'[b]
    {
      assert list'[a] == list[a];
    }
  }

  /** The official members of a group, in the group's order. */
  function Officials(sectors: seq<Sector>, group: seq<int>): (officials: seq<int>)
    requires forall t :: 0 <= t < |group| ==> 0 <= group[t] < |sectors|
    ensures forall x {:trigger x in officials} :: x in officials <==> x in group && IsOfficial(sectors[x])
  {
    if |group| == 0 then []
    else
      var last := group[|group| - 1];
      Officials(sectors, group[..|group| - 1]) + (if IsOfficial(sectors[last]) then [last] else [])
  }

  lemma {:induction false} OfficialsIncreasing(sectors: seq<Sector>, group: seq<int>)
    requires forall t :: 0 <= t < |group| ==> 0 <= group[t] < |sectors|
    requires Increasing(group)
    ensures Increasing(Officials(sectors, group))
    decreases |group|
  {
    if |group| > 0 {
      var init, last := group[..|group| - 1], group[|group| - 1];
      OfficialsIncreasing(sectors, init);
      var officials := Officials(sectors, init);
      forall t | 0 <= t < |officials|
        ensures officials[t] < last
      {
        assert officials[t] in officials;
        var k :| 0 <= k < |init| && init[k] == officials[t];
        assert group[k] == officials[t];
      }
    }
  }

  /** An increasing list holding one value only has at most one element. */
  lemma IncreasingConstant(list: seq<int>, j: int)
    requires Increasing(list)
    requires forall t :: 0 <= t < |list| ==> list[t] == j
    ensures |list| <= 1
  {
    if |list| > 0 {
      IncreasingGrowth(list, |list| - 1);
    }
  }

  lemma {:induction false} IncreasingGrowth(list: seq<int>, t: int)
    requires Increasing(list) && 0 <= t < |list|
    ensures list[t] >= list[0] + t
  {
    if t > 0 {
      IncreasingGrowth(list, t - 1);
      assert list[t - 1] < list[t];
    }
  }

  predicate NoRepeats(list: seq<string>)
  {
    forall a, b :: 0 <= a < b < |list| ==> list[a] != list[b]
  }

  /** The grouping: keys in order of first appearance, each with its complete group. */
  datatype Grouping = Grouping(keyOrder: seq<string>, groups: map<string, seq<int>>)

  ghost predicate IsGrouping(sectors: seq<Sector>, grouping: Grouping)
  {
    AllNamed(sectors)
    && (forall k :: k in grouping.groups <==> k in grouping.keyOrder)
    && NoRepeats(grouping.keyOrder)
    && (forall k :: k in grouping.groups ==> grouping.groups[k] == KeyIndices(sectors, k, |sectors|))
    && (forall k :: k in grouping.groups <==> IsKey(sectors, k))
  }

  /**
   * The first loop of the resolution: files every sector under its
   * lower-cased first name, failing on the first sector without a name.
   */
  method GroupByName(sectors: seq<Sector>) returns (r: Result<Grouping, ResolveError>)
    ensures r.Failure? <==> !AllNamed(sectors)
    ensures r.Failure? ==> (r.error.NoNames? &&
      r.error.index < |sectors| && !Named(sectors[r.error.index]) && NamedBelow(sectors, r.error.index))
    ensures r.Success? ==> IsGrouping(sectors, r.value)
    ensures r.Success? ==> r.value.keyOrder == KeyOrder(sectors, |sectors|)
  {
    var keyOrder: seq<string> := [];
    var sectorNameMap: map<string, seq<int>> := map[];
    for i := 0 to |sectors|
      invariant NamedBelow(sectors, i)
      invariant keyOrder == KeyOrder(sectors, i)
      invariant sectorNameMap == Groups(sectors, keyOrder, i)
    {
      if |sectors[i].names| == 0 {
        assert !Named(sectors[i]);
        return Failure(NoNames(i));
      }
      assert Named(sectors[i]);
      var lowerName := Lower(sectors[i].names[0]);
      assert lowerName == Key(sectors[i]);
      if lowerName !in sectorNameMap {
        NewKeyGroups(sectors, keyOrder, i);
        keyOrder := keyOrder + [lowerName];
        sectorNameMap := sectorNameMap[lowerName := [i]];
      } else {
        OldKeyGroups(sectors, keyOrder, i);
        sectorNameMap := sectorNameMap[lowerName := sectorNameMap[lowerName] + [i]];
      }
    }
    GroupingComplete(sectors, keyOrder, sectorNameMap);
    return Success(Grouping(keyOrder, sectorNameMap));
  }

  /** Some sector below `n` has the key `key`. */
  predicate KeyBelow(sectors: seq<Sector>, key: string, n: int)
    requires n <= |sectors|
  {
    exists j :: 0 <= j < n && Key(sectors[j]) == key
  }

  /** The keys of the first `n` sectors in order of first appearance. */
  function KeyOrder(sectors: seq<Sector>, n: nat): seq<string>
    requires n <= |sectors|
  {
    if n == 0 then []
    else
      var order := KeyOrder(sectors, n - 1);
      if Key(sectors[n - 1]) in order then order else order + [Key(sectors[n - 1])]
  }

  /** The order holds exactly the keys of the first `n` sectors. */
  lemma {:induction false} KeyOrderKeys(sectors: seq<Sector>, n: nat)
    requires n <= |sectors|
    ensures forall k :: k in KeyOrder(sectors, n) <==> KeyBelow(sectors, k, n)
  {
    if n > 0 {
      KeyOrderKeys(sectors, n - 1);
      forall k
        ensures k in KeyOrder(sectors, n) <==> KeyBelow(sectors, k, n)
      {
        KeyBelowStep(sectors, k, n - 1);
      }
    }
  }

  /** No key is in the order twice. */
  lemma {:induction false} KeyOrderDistinct(sectors: seq<Sector>, n: nat)
    requires n <= |sectors|
    ensures NoRepeats(KeyOrder(sectors, n))
  {
    if n > 0 {
      KeyOrderDistinct(sectors, n - 1);
      var order, key := KeyOrder(sectors, n - 1), Key(sectors[n - 1]);
      if key !in order {
        var order' := order + [key];
        assert order' == KeyOrder(sectors, n);
        forall a, b | 0 <= a < b < |order'|
          ensures order'[a] != order'[b]
        {
          assert order'[a] == order[a] && order[a] in order;
          if b == |order| {
            assert order'[b] == key;
          } else {
            assert order'[b] == order[b];
          }
        }
      }
    }
  }

  /** The grouping after the first `n` sectors: each key of `keyOrder` with its group so far. */
  function Groups(sectors: seq<Sector>, keyOrder: seq<string>, n: nat): (groups: map<string, seq<int>>)
    requires n <= |sectors|
    ensures forall k :: k in groups <==> k in keyOrder
  {
    map k | k in keyOrder :: KeyIndices(sectors, k, n)
  }

  /** Filing sector `n` under a key met for the first time. */
  lemma NewKeyGroups(sectors: seq<Sector>, keyOrder: seq<string>, n: nat)
    requires n < |sectors| && keyOrder == KeyOrder(sectors, n) && Key(sectors[n]) !in keyOrder
    ensures keyOrder + [Key(sectors[n])] == KeyOrder(sectors, n + 1)
    ensures Groups(sectors, keyOrder + [Key(sectors[n])], n + 1) == Groups(sectors, keyOrder, n)[Key(sectors[n]) := [n]]
  {
    var key := Key(sectors[n]);
    KeyOrderKeys(sectors, n);
    forall j | 0 <= j < n
      ensures Key(sectors[j]) != key
    {
      assert KeyBelow(sectors, Key(sectors[j]), n);
    }
    KeyIndicesEmpty(sectors, key, n);
    KeyIndicesStep(sectors, key, n);
    var g, g' := Groups(sectors, keyOrder, n), Groups(sectors, keyOrder + [key], n + 1);
    forall k | k in g'
      ensures g'[k] == g[key := [n]][k]
    {
      KeyIndicesStep(sectors, k, n);
    }
    assert g'.Keys == g[key := [n]].Keys;
  }

  /** Filing sector `n` under a key met before. */
  lemma OldKeyGroups(sectors: seq<Sector>, keyOrder: seq<string>, n: nat)
    requires n < |sectors| && keyOrder == KeyOrder(sectors, n) && Key(sectors[n]) in keyOrder
    ensures keyOrder == KeyOrder(sectors, n + 1)
    ensures var g := Groups(sectors, keyOrder, n);
      Groups(sectors, keyOrder, n + 1) == g[Key(sectors[n]) := g[Key(sectors[n])] + [n]]
  {
    var key := Key(sectors[n]);
    var g, g' := Groups(sectors, keyOrder, n), Groups(sectors, keyOrder, n + 1);
    forall k | k in g'
      ensures g'[k] == g[key := g[key] + [n]][k]
    {
      KeyIndicesStep(sectors, k, n);
    }
    assert g'.Keys == g[key := g[key] + [n]].Keys;
  }

  lemma KeyBelowStep(sectors: seq<Sector>, k: string, n: nat)
    requires n < |sectors|
    ensures KeyBelow(sectors, k, n + 1) <==> KeyBelow(sectors, k, n) || Key(sectors[n]) == k
  {
    if KeyBelow(sectors, k, n + 1) && Key(sectors[n]) != k {
      var j :| 0 <= j < n + 1 && Key(sectors[j]) == k;
      assert j < n;
    }
  }

  lemma KeyIndicesStep(sectors: seq<Sector>, k: string, n: nat)
    requires n < |sectors|
    ensures KeyIndices(sectors, k, n + 1) == KeyIndices(sectors, k, n) + (if Key(sectors[n]) == k then [n] else [])
  {
  }

  lemma {:induction false} KeyIndicesEmpty(sectors: seq<Sector>, key: string, n: nat)
    requires n <= |sectors|
    requires forall j :: 0 <= j < n ==> Key(sectors[j]) != key
    ensures KeyIndices(sectors, key, n) == []
  {
    if n > 0 {
      KeyIndicesEmpty(sectors, key, n - 1);
    }
  }

  /** The loop that lists the official sectors of a group. */
  method FindOfficials(sectors: seq<Sector>, sectorList: seq<int>) returns (officialSectors: seq<int>)
    requires forall t :: 0 <= t < |sectorList| ==> 0 <= sectorList[t] < |sectors|
    ensures officialSectors == Officials(sectors, sectorList)
  {
    officialSectors := [];
    for m := 0 to |sectorList|
      invariant officialSectors == Officials(sectors, sectorList[..m])
    {
      var j := sectorList[m];
      assert sectorList[..m + 1] == sectorList[..m] + [j];
      var tags := if sectors[j].tags.Some? then sectors[j].tags.value else "";
      if "OTU" in Split(tags, ' ') {
        officialSectors := officialSectors + [j];
      }
    }
    assert sectorList[..|sectorList|] == sectorList;
  }

  /**
   * The resolution of one group of two or more, with key `lowerName`: renames
   * its members in order, skipping the official one when there is exactly
   * one, and fails on the first new name that is a key already.
   */
  method ResolveGroup(sectors: seq<Sector>, grouping: Grouping, lowerName: string,
                      resolved: seq<Sector>, nameMappings: map<string, string>, ghost handled: set<int>)
    returns (r: Result<(seq<Sector>, map<string, string>), ResolveError>, ghost handled': set<int>)
    requires IsGrouping(sectors, grouping) && lowerName in grouping.groups
    requires |grouping.groups[lowerName]| > 1
    requires Progress(sectors, handled, resolved, nameMappings)
    requires forall j :: 0 <= j < |sectors| && j in handled ==> Key(sectors[j]) != lowerName
    ensures r.Failure? ==> (r.error.NameInUse? &&
      exists i :: 0 <= i < |sectors| && Key(sectors[i]) == lowerName && Clash(sectors, i) &&
        r.error.name == Disambiguated(sectors[i]))
    ensures r.Success? ==> Progress(sectors, handled', r.value.0, r.value.1)
    ensures r.Success? ==> forall j :: 0 <= j < |sectors| ==>
      (j in handled' <==> j in handled || Key(sectors[j]) == lowerName)
  {
    var sectorList := grouping.groups[lowerName];
    GroupOfGrouping(sectors, grouping, lowerName);
    var officialSectors := FindOfficials(sectors, sectorList);
    var newSectors, newMappings := resolved, nameMappings;
    handled' := handled;
    for m := 0 to |sectorList|
      invariant HandledUpTo(sectors, handled, handled', sectorList, m)
      invariant Progress(sectors, handled', newSectors, newMappings)
    {
      var j := sectorList[m];
      MemberStep(sectors, lowerName, sectorList, handled, handled', newSectors, m);
      GroupMember(sectors, lowerName, sectorList, officialSectors, m);
      if |officialSectors| == 1 {
        if j in officialSectors {
          ProgressSkip(sectors, handled', newSectors, newMappings, j);
          handled' := handled' + {j};
          continue;
        }
      }
      var names := newSectors[j].names;
      var canonicalName := names[0];
      var disambiguatedName := canonicalName + PositionSuffix(sectors[j].x, sectors[j].y);
      KeyOfGrouping(sectors, grouping, Lower(disambiguatedName));
      if Lower(disambiguatedName) in grouping.groups {
        assert Clash(sectors, j) && disambiguatedName == Disambiguated(sectors[j]);
        return Failure(NameInUse(disambiguatedName)), handled';
      }
      ProgressRename(sectors, handled', newSectors, newMappings, j);
      newSectors := newSectors[j := newSectors[j].(names := [disambiguatedName] + names)];
      newMappings := newMappings[disambiguatedName := canonicalName];
      handled' := handled' + {j};
    }
    HandledDone(sectors, lowerName, handled, handled', sectorList);
    return Success((newSectors, newMappings)), handled';
  }

  /** The handled set of the resolution loop after the first `g` keys. */
  ghost predicate HandledKeys(sectors: seq<Sector>, handled: set<int>, keyOrder: seq<string>, g: int)
    requires 0 <= g <= |keyOrder|
  {
    forall j :: 0 <= j < |sectors| ==> (j in handled <==> Key(sectors[j]) in keyOrder[..g])
  }

  lemma KeyOrderFresh(sectors: seq<Sector>, grouping: Grouping, handled: set<int>, g: int)
    requires IsGrouping(sectors, grouping) && 0 <= g < |grouping.keyOrder|
    requires HandledKeys(sectors, handled, grouping.keyOrder, g)
    ensures grouping.keyOrder[g] in grouping.groups
    ensures forall j :: 0 <= j < |sectors| && j in handled ==> Key(sectors[j]) != grouping.keyOrder[g]
  {
    var keyOrder := grouping.keyOrder;
    assert keyOrder[g] !in keyOrder[..g];
  }

  lemma KeyOrderStep(sectors: seq<Sector>, grouping: Grouping, handled: set<int>, handled': set<int>, g: int)
    requires 0 <= g < |grouping.keyOrder|
    requires HandledKeys(sectors, handled, grouping.keyOrder, g)
    requires forall j :: 0 <= j < |sectors| ==>
      (j in handled' <==> j in handled || Key(sectors[j]) == grouping.keyOrder[g])
    ensures HandledKeys(sectors, handled', grouping.keyOrder, g + 1)
  {
    var keyOrder := grouping.keyOrder;
    assert keyOrder[..g + 1] == keyOrder[..g] + [keyOrder[g]];
  }

  lemma KeyOrderDone(sectors: seq<Sector>, grouping: Grouping, handled: set<int>)
    requires IsGrouping(sectors, grouping)
    requires HandledKeys(sectors, handled, grouping.keyOrder, |grouping.keyOrder|)
    ensures forall j :: 0 <= j < |sectors| ==> j in handled
  {
    var keyOrder := grouping.keyOrder;
    assert keyOrder[..|keyOrder|] == keyOrder;
    forall j | 0 <= j < |sectors|
      ensures Key(sectors[j]) in keyOrder
    {
      KeyOfGrouping(sectors, grouping, Key(sectors[j]));
    }
  }

  /** The handled set of the group loop after its first `m` members. */
  ghost predicate HandledUpTo(sectors: seq<Sector>, handled: set<int>, handled': set<int>, sectorList: seq<int>, m: int)
    requires 0 <= m <= |sectorList|
  {
    forall j :: 0 <= j < |sectors| ==> (j in handled' <==> j in handled || j in sectorList[..m])
  }

  lemma GroupOfGrouping(sectors: seq<Sector>, grouping: Grouping, key: string)
    requires IsGrouping(sectors, grouping) && key in grouping.groups
    ensures grouping.groups[key] == KeyIndices(sectors, key, |sectors|)
    ensures |grouping.groups[key]| > 0
  {
    assert IsKey(sectors, key);
    var j :| 0 <= j < |sectors| && Key(sectors[j]) == key;
    assert j in KeyIndices(sectors, key, |sectors|);
  }

  lemma KeyOfGrouping(sectors: seq<Sector>, grouping: Grouping, key: string)
    requires IsGrouping(sectors, grouping)
    ensures key in grouping.groups <==> IsKey(sectors, key)
  {
  }

  /** Member `m` of the group is not handled yet, still has its original names, and is handled next. */
  lemma MemberStep(sectors: seq<Sector>, key: string, group: seq<int>,
                   handled: set<int>, handled': set<int>, resolved: seq<Sector>, m: int)
    requires group == KeyIndices(sectors, key, |sectors|) && 0 <= m < |group|
    requires HandledUpTo(sectors, handled, handled', group, m)
    requires forall j :: 0 <= j < |sectors| && j in handled ==> Key(sectors[j]) != key
    requires AllNamed(sectors) && SectorsSoFar(sectors, handled', resolved)
    ensures 0 <= group[m] < |sectors| && group[m] !in handled'
    ensures resolved[group[m]] == sectors[group[m]]
    ensures |resolved[group[m]].names| > 0 && resolved[group[m]].names[0] == FirstName(sectors[group[m]])
    ensures HandledUpTo(sectors, handled, handled' + {group[m]}, group, m + 1)
  {
    var j := group[m];
    KeyIndicesIncreasing(sectors, key, |sectors|);
    assert group[..m + 1] == group[..m] + [j];
    assert j !in group[..m];
    assert Key(sectors[j]) == key && Named(sectors[j]);
  }

  lemma HandledDone(sectors: seq<Sector>, key: string, handled: set<int>, handled': set<int>, group: seq<int>)
    requires group == KeyIndices(sectors, key, |sectors|)
    requires HandledUpTo(sectors, handled, handled', group, |group|)
    ensures forall j :: 0 <= j < |sectors| ==> (j in handled' <==> j in handled || Key(sectors[j]) == key)
  {
    assert group[..|group|] == group;
  }

  /**
   * The collision resolution: groups the sectors by lower-cased first name,
   * in order of first appearance, then renames the members of every group of
   * two or more, sparing the group's official sector when there is exactly
   * one, and records each new name against the old one.
   */
  method ResolveCollisions(sectors: seq<Sector>) returns (r: Result<Resolution, ResolveError>)
    ensures (r.Failure? && r.error.NoNames?) <==> !AllNamed(sectors)
    ensures r.Failure? && r.error.NoNames? ==>
      r.error.index < |sectors| && !Named(sectors[r.error.index]) && NamedBelow(sectors, r.error.index)
    ensures AllNamed(sectors) ==> (r.Success? <==> forall i :: 0 <= i < |sectors| ==> !Clash(sectors, i))
    ensures r.Failure? && r.error.NameInUse? ==> (AllNamed(sectors) &&
      exists i :: 0 <= i < |sectors| && Clash(sectors, i) && r.error.name == Disambiguated(sectors[i]))
    ensures r.Success? ==> (AllNamed(sectors) && |r.value.sectors| == |sectors| &&
      (forall i :: 0 <= i < |sectors| ==> r.value.sectors[i] == ResolvedSector(sectors, i)) &&
      IsNameMapping(sectors, r.value.nameMappings))
  {
    var grouped := GroupByName(sectors);
    if grouped.Failure? {
      return Failure(grouped.error);
    }
    var grouping := grouped.value;
    var keyOrder, sectorNameMap := grouping.keyOrder, grouping.groups;

    var resolved := sectors;
    var nameMappings: map<string, string> := map[];
    ghost var handled: set<int> := {};
    for g := 0 to |keyOrder|
      invariant HandledKeys(sectors, handled, keyOrder, g)
      invariant Progress(sectors, handled, resolved, nameMappings)
    {
      var lowerName := keyOrder[g];
      var sectorList := sectorNameMap[lowerName];
      KeyOrderFresh(sectors, grouping, handled, g);
      GroupOfGrouping(sectors, grouping, lowerName);
      if |sectorList| <= 1 {
        SingletonGroup(sectors, lowerName, sectorList);
        ProgressSkip(sectors, handled, resolved, nameMappings, sectorList[0]);
        KeyOrderStep(sectors, grouping, handled, handled + {sectorList[0]}, g);
        handled := handled + {sectorList[0]};
        continue;
      }
      var step;
      ghost var handled' := handled;
      step, handled' := ResolveGroup(sectors, grouping, lowerName, resolved, nameMappings, handled);
      if step.Failure? {
        return Failure(step.error);
      }
      KeyOrderStep(sectors, grouping, handled, handled', g);
      handled := handled';
      resolved, nameMappings := step.value.0, step.value.1;
    }
    KeyOrderDone(sectors, grouping, handled);
    ProgressDone(sectors, handled, resolved, nameMappings);
    return Success(Resolution(resolved, nameMappings));
  }

  /**
   * The state of the resolution loop: the sectors handled so far are
   * resolved and free of clashes, the others untouched, and the mapping
   * covers exactly the handled renamed sectors.
   */
  ghost predicate Progress(sectors: seq<Sector>, handled: set<int>, resolved: seq<Sector>, m: map<string, string>)
  {
    AllNamed(sectors) && SectorsSoFar(sectors, handled, resolved) && NoClashSoFar(sectors, handled)
    && MappedSoFar(sectors, handled, m) && OnlyMappedSoFar(sectors, handled, m)
  }

  ghost predicate SectorsSoFar(sectors: seq<Sector>, handled: set<int>, resolved: seq<Sector>)
  {
    |resolved| == |sectors| &&
    forall j :: 0 <= j < |sectors| ==> resolved[j] == if j in handled then ResolvedSector(sectors, j) else sectors[j]
  }

  ghost predicate NoClashSoFar(sectors: seq<Sector>, handled: set<int>)
  {
    forall j :: 0 <= j < |sectors| && j in handled ==> !Clash(sectors, j)
  }

  ghost predicate MappedSoFar(sectors: seq<Sector>, handled: set<int>, m: map<string, string>)
  {
    forall j :: 0 <= j < |sectors| && j in handled && Renamed(sectors, j) ==>
      Disambiguated(sectors[j]) in m && m[Disambiguated(sectors[j])] == FirstName(sectors[j])
  }

  ghost predicate OnlyMappedSoFar(sectors: seq<Sector>, handled: set<int>, m: map<string, string>)
  {
    forall d :: d in m ==>
      exists j :: 0 <= j < |sectors| && j in handled && Renamed(sectors, j) && Disambiguated(sectors[j]) == d
  }

  /** Handling a sector that keeps its name keeps the loop state. */
  lemma ProgressSkip(sectors: seq<Sector>, handled: set<int>, resolved: seq<Sector>, m: map<string, string>, j: int)
    requires Progress(sectors, handled, resolved, m)
    requires 0 <= j < |sectors| && !Renamed(sectors, j)
    ensures Progress(sectors, handled + {j}, resolved, m)
  {
    assert SectorsSoFar(sectors, handled + {j}, resolved);
    assert NoClashSoFar(sectors, handled + {j});
    assert MappedSoFar(sectors, handled + {j}, m);
    assert OnlyMappedSoFar(sectors, handled + {j}, m) by {
      forall d | d in m
        ensures exists i :: 0 <= i < |sectors| && i in handled + {j} && Renamed(sectors, i) && Disambiguated(sectors[i]) == d
      {
        var i :| 0 <= i < |sectors| && i in handled && Renamed(sectors, i) && Disambiguated(sectors[i]) == d;
        assert i in handled + {j};
      }
    }
  }

  /** Renaming sector `j` keeps the loop state. */
  lemma ProgressRename(sectors: seq<Sector>, handled: set<int>, resolved: seq<Sector>, m: map<string, string>, j: int)
    requires Progress(sectors, handled, resolved, m)
    requires 0 <= j < |sectors| && j !in handled && Renamed(sectors, j)
    requires !IsKey(sectors, Lower(Disambiguated(sectors[j])))
    ensures resolved[j] == sectors[j] && |resolved[j].names| > 0 && resolved[j].names[0] == FirstName(sectors[j])
    ensures Progress(sectors, handled + {j},
      resolved[j := resolved[j].(names := [Disambiguated(sectors[j])] + resolved[j].names)],
      m[Disambiguated(sectors[j]) := FirstName(sectors[j])])
  {
    var d := Disambiguated(sectors[j]);
    var handled' := handled + {j};
    var resolved' := resolved[j := resolved[j].(names := [d] + resolved[j].names)];
    var m' := m[d := FirstName(sectors[j])];
    assert resolved[j] == sectors[j] && Named(sectors[j]);
    SectorsRename(sectors, handled, resolved, j);
    assert NoClashSoFar(sectors, handled') by {
      assert !Clash(sectors, j);
    }
    MappedRename(sectors, handled, m, j);
    OnlyMappedRename(sectors, handled, m, j);
  }

  lemma SectorsRename(sectors: seq<Sector>, handled: set<int>, resolved: seq<Sector>, j: int)
    requires SectorsSoFar(sectors, handled, resolved)
    requires 0 <= j < |sectors| && j !in handled && Renamed(sectors, j)
    ensures SectorsSoFar(sectors, handled + {j},
      resolved[j := resolved[j].(names := [Disambiguated(sectors[j])] + resolved[j].names)])
  {
    assert resolved[j] == sectors[j];
  }

  lemma MappedRename(sectors: seq<Sector>, handled: set<int>, m: map<string, string>, j: int)
    requires MappedSoFar(sectors, handled, m)
    requires 0 <= j < |sectors| && Renamed(sectors, j)
    ensures MappedSoFar(sectors, handled + {j}, m[Disambiguated(sectors[j]) := FirstName(sectors[j])])
  {
    var d := Disambiguated(sectors[j]);
    forall i | 0 <= i < |sectors| && i in handled && Renamed(sectors, i) && Disambiguated(sectors[i]) == d
      ensures FirstName(sectors[i]) == FirstName(sectors[j])
    {
      DisambiguatedInjective(sectors[i], sectors[j]);
    }
  }

  lemma OnlyMappedRename(sectors: seq<Sector>, handled: set<int>, m: map<string, string>, j: int)
    requires OnlyMappedSoFar(sectors, handled, m)
    requires 0 <= j < |sectors| && Renamed(sectors, j)
    ensures OnlyMappedSoFar(sectors, handled + {j}, m[Disambiguated(sectors[j]) := FirstName(sectors[j])])
  {
    var d := Disambiguated(sectors[j]);
    var m' := m[d := FirstName(sectors[j])];
    forall e | e in m'
      ensures exists i :: 0 <= i < |sectors| && i in handled + {j} && Renamed(sectors, i) && Disambiguated(sectors[i]) == e
    {
      if e == d {
        assert j in handled + {j};
      } else {
        var i :| 0 <= i < |sectors| && i in handled && Renamed(sectors, i) && Disambiguated(sectors[i]) == e;
        assert i in handled + {j};
      }
    }
  }

  /** What the grouping loop leaves behind: the keys are exactly those of the sectors. */
  lemma GroupingComplete(sectors: seq<Sector>, keyOrder: seq<string>, groups: map<string, seq<int>>)
    requires AllNamed(sectors)
    requires keyOrder == KeyOrder(sectors, |sectors|) && groups == Groups(sectors, keyOrder, |sectors|)
    ensures IsGrouping(sectors, Grouping(keyOrder, groups))
  {
    KeyOrderKeys(sectors, |sectors|);
    KeyOrderDistinct(sectors, |sectors|);
  }

  /** A group of one: its member collides with nobody, so it is not renamed. */
  lemma SingletonGroup(sectors: seq<Sector>, key: string, group: seq<int>)
    requires group == KeyIndices(sectors, key, |sectors|) && 0 < |group| <= 1
    ensures forall j :: 0 <= j < |sectors| ==> (Key(sectors[j]) == key <==> j == group[0])
    ensures !Renamed(sectors, group[0])
  {
    forall j | 0 <= j < |sectors| && Key(sectors[j]) == key
      ensures j == group[0]
    {
      assert j in group;
    }
  }

  /**
   * A member of a group of two or more is renamed unless it is the only
   * entry of the group's list of official sectors.
   */
  lemma GroupMember(sectors: seq<Sector>, key: string, group: seq<int>, officials: seq<int>, m: nat)
    requires group == KeyIndices(sectors, key, |sectors|) && |group| > 1 && m < |group|
    requires officials == Officials(sectors, group)
    ensures forall j :: 0 <= j < |sectors| ==> (Key(sectors[j]) == key <==> j in group)
    ensures Renamed(sectors, group[m]) <==> !(|officials| == 1 && group[m] in officials)
  {
    var j := group[m];
    InGroupCollides(sectors, key, group, m);
    if SoleOfficial(sectors, j) {
      SoleOfficialListed(sectors, key, group, officials, j);
    }
    if |officials| == 1 && j in officials {
      ListedSoleOfficial(sectors, key, group, officials, j);
    }
  }

  lemma InGroupCollides(sectors: seq<Sector>, key: string, group: seq<int>, m: nat)
    requires group == KeyIndices(sectors, key, |sectors|) && |group| > 1 && m < |group|
    ensures Collides(sectors, group[m])
  {
    KeyIndicesIncreasing(sectors, key, |sectors|);
    var other := if m == 0 then group[1] else group[0];
    assert other != group[m] && Key(sectors[other]) == key;
  }

  lemma SoleOfficialListed(sectors: seq<Sector>, key: string, group: seq<int>, officials: seq<int>, j: int)
    requires group == KeyIndices(sectors, key, |sectors|)
    requires officials == Officials(sectors, group)
    requires j in group && SoleOfficial(sectors, j)
    ensures |officials| == 1 && j in officials
  {
    KeyIndicesIncreasing(sectors, key, |sectors|);
    OfficialsIncreasing(sectors, group);
    InGroupHasKey(sectors, key, group, j);
    assert j in officials;
    forall t | 0 <= t < |officials|
      ensures officials[t] == j
    {
      var o := officials[t];
      assert o in officials;
      InGroupHasKey(sectors, key, group, o);
    }
    IncreasingConstant(officials, j);
  }

  lemma InGroupHasKey(sectors: seq<Sector>, key: string, group: seq<int>, x: int)
    requires group == KeyIndices(sectors, key, |sectors|)
    requires x in group
    ensures 0 <= x < |sectors| && Key(sectors[x]) == key
  {
  }

  lemma ListedSoleOfficial(sectors: seq<Sector>, key: string, group: seq<int>, officials: seq<int>, j: int)
    requires group == KeyIndices(sectors, key, |sectors|)
    requires officials == Officials(sectors, group)
    requires |officials| == 1 && j in officials
    ensures SoleOfficial(sectors, j)
  {
    OnlyElement(officials, j);
    InGroupHasKey(sectors, key, group, j);
    forall j' | 0 <= j' < |sectors| && j' != j && Key(sectors[j']) == key
      ensures !IsOfficial(sectors[j'])
    {
      assert j' in group;
      assert j' !in officials;
    }
  }

  lemma OnlyElement(list: seq<int>, x: int)
    requires |list| == 1 && x in list
    ensures list == [x]
  {
  }

  /** Once every sector is handled, the loop state is the specified resolution. */
  lemma ProgressDone(sectors: seq<Sector>, handled: set<int>, resolved: seq<Sector>, m: map<string, string>)
    requires Progress(sectors, handled, resolved, m)
    requires forall j :: 0 <= j < |sectors| ==> j in handled
    ensures forall i :: 0 <= i < |sectors| ==> resolved[i] == ResolvedSector(sectors, i)
    ensures forall i :: 0 <= i < |sectors| ==> !Clash(sectors, i)
    ensures IsNameMapping(sectors, m)
  {
  }

  /** Characters that `PositionSuffix` can contain; none of them has an upper case. */
  lemma SuffixHasNoUpperCase(x: int, y: int)
    ensures Lower(PositionSuffix(x, y)) == PositionSuffix(x, y)
  {
    var s := PositionSuffix(x, y);
    forall i | 0 <= i < |s|
      ensures !('A' <= s[i] <= 'Z')
    {
      var xs, ys := IntToString(x), IntToString(y);
      assert s == " (" + xs + ", " + ys + ")";
      if 2 <= i < 2 + |xs| {
        assert s[i] == xs[i - 2];
      } else if 4 + |xs| <= i < 4 + |xs| + |ys| {
        assert s[i] == ys[i - 4 - |xs|];
      }
    }
    LowerOfLower(s);
  }

  /** Index of the last occurrence of `c` in `s`, or -1. */
  function LastIndexOf(s: string, c: char): int
  {
    if |s| == 0 then -1
    else if s[|s| - 1] == c then |s| - 1
    else LastIndexOf(s[..|s| - 1], c)
  }

  lemma {:induction false} LastIndexOfSpace(p: string, d: string)
    requires ' ' !in d
    ensures LastIndexOf(p + " " + d, ' ') == |p|
    decreases |d|
  {
    var s := p + " " + d;
    if |d| > 0 {
      assert s[..|s| - 1] == p + " " + d[..|d| - 1];
      assert d[|d| - 1] in d;
      LastIndexOfSpace(p, d[..|d| - 1]);
    }
  }

  /**
   * Splitting at the last space: when the parts after the last space hold no
   * space, equal strings have equal parts on both sides of it.
   */
  lemma LastSpaceSplit(p: string, d: string, q: string, e: string)
    requires p + " " + d == q + " " + e
    requires ' ' !in d && ' ' !in e
    ensures p == q && d == e
  {
    var s := p + " " + d;
    LastIndexOfSpace(p, d);
    LastIndexOfSpace(q, e);
    assert p == s[..|p|];
    assert q == s[..|q|];
    assert d == s[|p| + 1..];
    assert e == s[|q| + 1..];
  }

  lemma NoSpaceInIntToString(i: int)
    ensures ' ' !in IntToString(i)
  {
  }

  /** A name with its position suffix determines the name and the position. */
  lemma PositionSuffixInjective(n1: string, x1: int, y1: int, n2: string, x2: int, y2: int)
    requires n1 + PositionSuffix(x1, y1) == n2 + PositionSuffix(x2, y2)
    ensures n1 == n2 && x1 == x2 && y1 == y2
  {
    var xs1, ys1, xs2, ys2 := IntToString(x1), IntToString(y1), IntToString(x2), IntToString(y2);
    NoSpaceInIntToString(x1);
    NoSpaceInIntToString(y1);
    NoSpaceInIntToString(x2);
    NoSpaceInIntToString(y2);
    assert n1 + PositionSuffix(x1, y1) == n1 + " (" + xs1 + ", " + ys1 + ")";
    assert n2 + PositionSuffix(x2, y2) == n2 + " (" + xs2 + ", " + ys2 + ")";
    SplitAtComma(n1 + " (" + xs1, ys1, n2 + " (" + xs2, ys2);
    SplitAtParenthesis(n1, xs1, n2, xs2);
    IntToStringInjective(x1, x2);
    IntToStringInjective(y1, y2);
  }

  /** "<p>, <y>)" with no space in `y`: the last space separates `p` from `y`. */
  lemma SplitAtComma(p1: string, ys1: string, p2: string, ys2: string)
    requires p1 + ", " + ys1 + ")" == p2 + ", " + ys2 + ")"
    requires ' ' !in ys1 && ' ' !in ys2
    ensures p1 == p2 && ys1 == ys2
  {
    assert p1 + ", " + ys1 + ")" == (p1 + ",") + " " + (ys1 + ")");
    assert p2 + ", " + ys2 + ")" == (p2 + ",") + " " + (ys2 + ")");
    assert ' ' !in ys1 + ")";
    assert ' ' !in ys2 + ")";
    LastSpaceSplit(p1 + ",", ys1 + ")", p2 + ",", ys2 + ")");
    assert p1 == (p1 + ",")[..|p1|];
    assert p2 == (p2 + ",")[..|p2|];
    assert ys1 == (ys1 + ")")[..|ys1|];
    assert ys2 == (ys2 + ")")[..|ys2|];
  }

  /** "<n> (<x>" with no space in `x`: the last space separates `n` from `x`. */
  lemma SplitAtParenthesis(n1: string, xs1: string, n2: string, xs2: string)
    requires n1 + " (" + xs1 == n2 + " (" + xs2
    requires ' ' !in xs1 && ' ' !in xs2
    ensures n1 == n2 && xs1 == xs2
  {
    assert n1 + " (" + xs1 == n1 + " " + ("(" + xs1);
    assert n2 + " (" + xs2 == n2 + " " + ("(" + xs2);
    assert ' ' !in "(" + xs1;
    assert ' ' !in "(" + xs2;
    LastSpaceSplit(n1, "(" + xs1, n2, "(" + xs2);
    assert xs1 == ("(" + xs1)[1..];
    assert xs2 == ("(" + xs2)[1..];
  }

  lemma DisambiguatedInjective(a: Sector, b: Sector)
    requires Disambiguated(a) == Disambiguated(b)
    ensures FirstName(a) == FirstName(b) && a.x == b.x && a.y == b.y
  {
    PositionSuffixInjective(FirstName(a), a.x, a.y, FirstName(b), b.x, b.y);
  }

  /** Lower-casing a disambiguated name lower-cases the name and keeps the suffix. */
  lemma LowerDisambiguated(s: Sector)
    ensures Lower(Disambiguated(s)) == Key(s) + PositionSuffix(s.x, s.y)
  {
    LowerAppend(FirstName(s), PositionSuffix(s.x, s.y));
    SuffixHasNoUpperCase(s.x, s.y);
  }

  /**
   * The point of the resolution: when it succeeds and no two sectors share a
   * position, no two sectors share a first name, even ignoring case.
   */
  lemma ResolvedKeysDistinct(sectors: seq<Sector>)
    requires forall i :: 0 <= i < |sectors| ==> !Clash(sectors, i)
    requires forall i, j :: 0 <= i < j < |sectors| ==>
      sectors[i].x != sectors[j].x || sectors[i].y != sectors[j].y
    ensures forall i, j :: 0 <= i < j < |sectors| ==>
      Key(ResolvedSector(sectors, i)) != Key(ResolvedSector(sectors, j))
  {
    forall i, j | 0 <= i < j < |sectors|
      ensures Key(ResolvedSector(sectors, i)) != Key(ResolvedSector(sectors, j))
    {
      var a, b := sectors[i], sectors[j];
      if Renamed(sectors, i) && Renamed(sectors, j) {
        LowerDisambiguated(a);
        LowerDisambiguated(b);
        if Key(ResolvedSector(sectors, i)) == Key(ResolvedSector(sectors, j)) {
          PositionSuffixInjective(Key(a), a.x, a.y, Key(b), b.x, b.y);
        }
      } else if Renamed(sectors, i) {
        assert !Clash(sectors, i);
      } else if Renamed(sectors, j) {
        assert !Clash(sectors, j);
      }
    }
  }

  /**
   * What the metadata step finds when it looks up a sector's new first name
   * in the mapping: the old first name exactly for the renamed sectors, and
   * nothing for the others.
   */
  lemma MappingLookup(sectors: seq<Sector>, m: map<string, string>, i: int)
    requires AllNamed(sectors) && 0 <= i < |sectors|
    requires forall j :: 0 <= j < |sectors| ==> !Clash(sectors, j)
    requires IsNameMapping(sectors, m)
    ensures FirstName(ResolvedSector(sectors, i)) in m <==> Renamed(sectors, i)
    ensures Renamed(sectors, i) ==> m[FirstName(ResolvedSector(sectors, i))] == FirstName(sectors[i])
  {
    if !Renamed(sectors, i) {
      UnmappedName(sectors, m, i);
    }
  }

  lemma UnmappedName(sectors: seq<Sector>, m: map<string, string>, i: int)
    requires 0 <= i < |sectors| && !Renamed(sectors, i)
    requires forall j :: 0 <= j < |sectors| ==> !Clash(sectors, j)
    requires forall d :: d in m ==>
      exists j :: 0 <= j < |sectors| && Renamed(sectors, j) && Disambiguated(sectors[j]) == d
    ensures FirstName(sectors[i]) !in m
  {
    var name := FirstName(sectors[i]);
    forall j | 0 <= j < |sectors| && Renamed(sectors, j)
      ensures Disambiguated(sectors[j]) != name
    {
      assert !Clash(sectors, j);
      assert Key(sectors[i]) == Lower(name);
    }
  }

  /** A group of two or more with no official sector: every member is renamed. */
  lemma NoOfficialAllRenamed(sectors: seq<Sector>, i: int)
    requires 0 <= i < |sectors|
    requires Collides(sectors, i)
    requires forall j :: 0 <= j < |sectors| && Key(sectors[j]) == Key(sectors[i]) ==> !IsOfficial(sectors[j])
    ensures Renamed(sectors, i) && ResolvedSector(sectors, i).names == [Disambiguated(sectors[i])] + sectors[i].names
  {
  }

  /** Two or more official sectors in a group: none of them keeps its name. */
  lemma TwoOfficialsAllRenamed(sectors: seq<Sector>, i: int, o1: int, o2: int)
    requires 0 <= i < |sectors| && 0 <= o1 < |sectors| && 0 <= o2 < |sectors| && o1 != o2
    requires Key(sectors[o1]) == Key(sectors[i]) && Key(sectors[o2]) == Key(sectors[i])
    requires IsOfficial(sectors[o1]) && IsOfficial(sectors[o2])
    ensures Renamed(sectors, i)
  {
    var other := if o1 != i then o1 else o2;
    assert other != i && Key(sectors[other]) == Key(sectors[i]);
  }

  /**
   * Two sectors called "Unnamed", at (0, 0) tagged "OTU" and at (0, 1)
   * untagged: the official one keeps its name, the other becomes
   * "Unnamed (0, 1)", and the mapping records just that rename.
   */
  lemma SoleOfficialExample()
    ensures var sectors := [Sector(["Unnamed"], 0, 0, Some("OTU")), Sector(["Unnamed"], 0, 1, None)];
      (forall i :: 0 <= i < |sectors| ==> !Clash(sectors, i))
      && ResolvedSector(sectors, 0) == sectors[0]
      && ResolvedSector(sectors, 1).names == ["Unnamed (0, 1)", "Unnamed"]
      && IsNameMapping(sectors, map["Unnamed (0, 1)" := "Unnamed"])
  {
    var sectors := [Sector(["Unnamed"], 0, 0, Some("OTU")), Sector(["Unnamed"], 0, 1, None)];
    assert Split("OTU", ' ') == ["OTU"] && Split("", ' ') == [""];
    assert IsOfficial(sectors[0]) && !IsOfficial(sectors[1]);
    assert Collides(sectors, 1) by {
      assert Key(sectors[0]) == Key(sectors[1]);
    }
    assert SoleOfficial(sectors, 0);
    assert !Renamed(sectors, 0) && Renamed(sectors, 1);
    assert IntToString(0) == "0" && IntToString(1) == "1";
    assert Disambiguated(sectors[1]) == "Unnamed (0, 1)";
    NoClashBySize(sectors, 1);
  }

  /**
   * Two untagged sectors called "Foo", at (1, 1) and (2, 2): neither keeps
   * the bare name, they become "Foo (1, 1)" and "Foo (2, 2)".
   */
  lemma NoOfficialExample()
    ensures var sectors := FooSectors();
      (forall i :: 0 <= i < |sectors| ==> !Clash(sectors, i))
      && ResolvedSector(sectors, 0).names == ["Foo (1, 1)", "Foo"]
      && ResolvedSector(sectors, 1).names == ["Foo (2, 2)", "Foo"]
      && IsNameMapping(sectors, map["Foo (1, 1)" := "Foo", "Foo (2, 2)" := "Foo"])
  {
    FooRenamed();
    var sectors := FooSectors();
    NoClashBySize(sectors, 0);
    NoClashBySize(sectors, 1);
    BothRenamedMapping(sectors);
  }

  /** The listing of the example: two untagged sectors called "Foo", at (1, 1) and (2, 2). */
  function FooSectors(): seq<Sector>
  {
    [Sector(["Foo"], 1, 1, None), Sector(["Foo"], 2, 2, None)]
  }

  /** Both "Foo" sectors collide and neither is official, so both are renamed. */
  lemma FooRenamed()
    ensures Renamed(FooSectors(), 0) && Renamed(FooSectors(), 1)
    ensures Disambiguated(FooSectors()[0]) == "Foo (1, 1)" && Disambiguated(FooSectors()[1]) == "Foo (2, 2)"
  {
    var sectors := FooSectors();
    assert Split("", ' ') == [""];
    assert !IsOfficial(sectors[0]) && !IsOfficial(sectors[1]);
    assert Key(sectors[0]) == Key(sectors[1]);
    assert IntToString(1) == "1" && IntToString(2) == "2";
  }

  /** Two sectors, both renamed: the mapping holds their two new names and nothing else. */
  lemma BothRenamedMapping(sectors: seq<Sector>)
    requires |sectors| == 2 && Renamed(sectors, 0) && Renamed(sectors, 1)
    ensures IsNameMapping(sectors,
      map[Disambiguated(sectors[0]) := FirstName(sectors[0]), Disambiguated(sectors[1]) := FirstName(sectors[1])])
  {
    var m := map[Disambiguated(sectors[0]) := FirstName(sectors[0]), Disambiguated(sectors[1]) := FirstName(sectors[1])];
    if Disambiguated(sectors[0]) == Disambiguated(sectors[1]) {
      DisambiguatedInjective(sectors[0], sectors[1]);
    }
    forall d | d in m
      ensures exists i :: 0 <= i < |sectors| && Renamed(sectors, i) && Disambiguated(sectors[i]) == d
    {
      if d == Disambiguated(sectors[0]) {
        assert Renamed(sectors, 0);
      } else {
        assert Renamed(sectors, 1);
      }
    }
  }

  /** The tags "OTU" split into the one token "OTU". */
  /**
   * "OTU" must be a whole tag, in upper case: "OTU" and "Faraway OTU" are
   * official; "OTU2", "otu" and no tags at all are not.
   */
  lemma OfficialTagExamples()
    ensures IsOfficial(Sector(["A"], 0, 0, Some("OTU")))
    ensures IsOfficial(Sector(["A"], 0, 0, Some("Faraway OTU")))
    ensures !IsOfficial(Sector(["A"], 0, 0, Some("OTU2")))
    ensures !IsOfficial(Sector(["A"], 0, 0, Some("otu")))
    ensures !IsOfficial(Sector(["A"], 0, 0, None))
  {
    OfficialTagsAccepted();
    OfficialTagsRefused();
  }

  lemma OfficialTagsAccepted()
    ensures IsOfficial(Sector(["A"], 0, 0, Some("OTU")))
    ensures IsOfficial(Sector(["A"], 0, 0, Some("Faraway OTU")))
  {
    assert Split("OTU", ' ') == ["OTU"];
    assert "Faraway OTU" == "Faraway" + [' '] + "OTU";
    SplitAfterWord("Faraway", "OTU", ' ');
  }

  lemma OfficialTagsRefused()
    ensures !IsOfficial(Sector(["A"], 0, 0, Some("OTU2")))
    ensures !IsOfficial(Sector(["A"], 0, 0, Some("otu")))
    ensures !IsOfficial(Sector(["A"], 0, 0, None))
  {
    assert Split("OTU2", ' ') == ["OTU2"];
    assert Split("otu", ' ') == ["otu"];
  }

  /** A new name longer than every first name cannot be a key: lower-casing keeps lengths. */
  lemma NoClashBySize(sectors: seq<Sector>, i: int)
    requires 0 <= i < |sectors|
    requires forall j :: 0 <= j < |sectors| ==> |FirstName(sectors[j])| < |Disambiguated(sectors[i])|
    ensures !Clash(sectors, i)
  {
  }
}
