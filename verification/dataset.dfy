/** The dataset step: the ids of the tiles labelled positive, the sorting
    of the image files into the positive directory or into negative groups
    keyed by tile id, and the copying of a sample of the negative groups. */
module Dataset {
  import opened Text
  import opened TileNames

  /** A row of the labelled feature table as read back from features.csv. */
  datatype FeatureRow = FeatureRow(geohash: string, date: string, hoppers: int)

  // ---------------------------------------------------------------------
  // pos_feature_ids
  // ---------------------------------------------------------------------

  /** The set `pos_feature_ids`: the ids of the rows labelled 1, or the
      error of the first such row whose date does not split into three
      parts. */
  function PositiveIdSet(features: seq<FeatureRow>): (r: Result<set<string>>)
    ensures r.Err? ==> r.error.UnpackError? && r.error.expected == 3
  {
    if features == [] then Ok({})
    else
      var row := features[|features| - 1];
      match PositiveIdSet(features[..|features| - 1])
      case Err(e) => Err(e)
      case Ok(ids) =>
        if row.hoppers != 1 then Ok(ids)
        else
          match FileId(row.geohash, row.date)
          case Err(e) => Err(e)
          case Ok(id) => Ok(ids + {id})
  }

  /** The loop that adds `get_file_id` of each positive row to the set. */
  method PositiveIds(features: seq<FeatureRow>) returns (r: Result<set<string>>)
    ensures r == PositiveIdSet(features)
  {
    var ids: set<string> := {};
    for i := 0 to |features|
      invariant PositiveIdSet(features[..i]) == Ok(ids)
    {
      assert features[..i + 1][..i] == features[..i];
      if features[i].hoppers == 1 {
        var id := FileId(features[i].geohash, features[i].date);
        if id.Err? {
          PositiveIdSetErrorStays(features, i + 1);
          return Err(id.error);
        }
        ids := ids + {id.value};
      }
    }
    assert features[..|features|] == features;
    return Ok(ids);
  }

  /** Once a prefix of the rows raises, all of them raise the same error. */
  lemma {:induction false} PositiveIdSetErrorStays(features: seq<FeatureRow>, k: nat)
    requires k <= |features| && PositiveIdSet(features[..k]).Err?
    ensures PositiveIdSet(features) == PositiveIdSet(features[..k])
    decreases |features| - k
  {
    if k < |features| {
      var n := |features| - 1;
      assert features[..n][..k] == features[..k];
      PositiveIdSetErrorStays(features[..n], k);
    } else {
      assert features[..k] == features;
    }
  }

  /** The set can be built exactly when every positive row's date splits
      into three parts. */
  lemma {:induction false} PositiveIdSetOk(features: seq<FeatureRow>)
    ensures PositiveIdSet(features).Ok? <==>
      forall i :: 0 <= i < |features| && features[i].hoppers == 1 ==> FileId(features[i].geohash, features[i].date).Ok?
  {
    if features != [] {
      var n := |features| - 1;
      PositiveIdSetOk(features[..n]);
      assert forall i :: 0 <= i < n ==> features[..n][i] == features[i];
    }
  }

  /** An id is in the set exactly when it is the id of some row labelled 1. */
  lemma {:induction false} PositiveIdSetMembers(features: seq<FeatureRow>)
    requires PositiveIdSet(features).Ok?
    ensures forall id :: id in PositiveIdSet(features).value <==>
      (exists i :: 0 <= i < |features| && features[i].hoppers == 1 && FileId(features[i].geohash, features[i].date) == Ok(id))
  {
    if features != [] {
      var n := |features| - 1;
      var front := features[..n];
      PositiveIdSetMembers(front);
      assert forall i :: 0 <= i < n ==> front[i] == features[i];
    }
  }

  /** When the set cannot be built, the error is that of the first row
      labelled 1 whose date does not split into three parts. */
  lemma {:induction false} PositiveIdSetErr(features: seq<FeatureRow>)
    ensures PositiveIdSet(features).Err? ==>
      exists i :: 0 <= i < |features| && features[i].hoppers == 1 && FileId(features[i].geohash, features[i].date) == Err(PositiveIdSet(features).error)
        && forall j :: 0 <= j < i && features[j].hoppers == 1 ==> FileId(features[j].geohash, features[j].date).Ok?
  {
    if features != [] {
      var n := |features| - 1;
      var front := features[..n];
      PositiveIdSetErr(front);
      if PositiveIdSet(front).Err? {
        var i :| 0 <= i < n && front[i].hoppers == 1 && FileId(front[i].geohash, front[i].date) == Err(PositiveIdSet(front).error)
          && forall j :: 0 <= j < i && front[j].hoppers == 1 ==> FileId(front[j].geohash, front[j].date).Ok?;
        assert forall j :: 0 <= j <= i ==> front[j] == features[j];
      } else {
        PositiveIdSetOk(front);
        assert forall j :: 0 <= j < n ==> front[j] == features[j];
      }
    }
  }

  // ---------------------------------------------------------------------
  // Sorting the image files
  // ---------------------------------------------------------------------

  /** Where the sorting loop sends a directory entry. */
  datatype Route = NotAFile | Malformed(error: Error) | Positive | Negative(tileId: string)

  /** Entries that are not regular files are skipped; a file name must split
      on `_` into three parts; its tile id decides between the two classes. */
  function RouteOf(entry: string, isFile: string -> bool, pos: set<string>): (route: Route)
    ensures route.Malformed? <==> IsMalformed(entry, isFile)
    ensures route.Negative? ==> route.tileId !in pos
  {
    if !isFile(entry) then NotAFile
    else
      match TileIdOf(entry)
      case Err(e) => Malformed(e)
      case Ok(t) => if t in pos then Positive else Negative(t)
  }

  /** Whether the entry is a file whose name makes the sorting loop raise. */
  predicate IsMalformed(entry: string, isFile: string -> bool)
  {
    isFile(entry) && TileIdOf(entry).Err?
  }

  /** How many entries the sorting loop gets through: the position of the
      first file whose name raises, or all of them. */
  function Processed(entries: seq<string>, isFile: string -> bool): (n: nat)
    ensures n <= |entries|
    ensures forall j :: 0 <= j < n ==> !IsMalformed(entries[j], isFile)
    ensures n < |entries| ==> IsMalformed(entries[n], isFile)
  {
    if entries == [] || IsMalformed(entries[0], isFile) then 0
    else 1 + Processed(entries[1..], isFile)
  }

  /** The regular files among the entries, in listing order. */
  function Files(entries: seq<string>, isFile: string -> bool): seq<string>
  {
    if entries == [] then []
    else
      var last := entries[|entries| - 1];
      Files(entries[..|entries| - 1], isFile) + (if isFile(last) then [last] else [])
  }

  /** The entries copied to the positive directory, in listing order. */
  function Positives(entries: seq<string>, isFile: string -> bool, pos: set<string>): seq<string>
  {
    if entries == [] then []
    else
      var last := entries[|entries| - 1];
      Positives(entries[..|entries| - 1], isFile, pos) + (if RouteOf(last, isFile, pos).Positive? then [last] else [])
  }

  /** The negative entries of tile `t`, in listing order. */
  function Group(entries: seq<string>, isFile: string -> bool, pos: set<string>, t: string): seq<string>
  {
    if entries == [] then []
    else
      var last := entries[|entries| - 1];
      Group(entries[..|entries| - 1], isFile, pos, t) + (if RouteOf(last, isFile, pos) == Negative(t) then [last] else [])
  }

  /** The dictionary `neg_files` as the sorting loop builds it: each
      negative entry appended to the list of its tile id, the list created
      empty on the tile id's first entry. */
  function NegGroups(entries: seq<string>, isFile: string -> bool, pos: set<string>): (groups: map<string, seq<string>>)
    ensures forall t :: t in groups ==> groups[t] != []
  {
    if entries == [] then map[]
    else
      var last := entries[|entries| - 1];
      var groups := NegGroups(entries[..|entries| - 1], isFile, pos);
      match RouteOf(last, isFile, pos)
      case Negative(t) => groups[t := (if t in groups then groups[t] else []) + [last]]
      case _ => groups
  }

  /** The sorting loop: each file goes to the positive directory at once if
      its tile id is positive, or is appended to the list of its tile id in
      `neg_files`; the first file whose name does not split into three parts
      raises, after the copies made before it. */
  method Partition(entries: seq<string>, isFile: string -> bool, pos: set<string>)
    returns (positives: seq<string>, negFiles: map<string, seq<string>>, err: Option<Error>)
    ensures var stop := Processed(entries, isFile);
      && positives == Positives(entries[..stop], isFile, pos)
      && negFiles == NegGroups(entries[..stop], isFile, pos)
      && (err.None? <==> stop == |entries|)
      && (err.Some? ==> RouteOf(entries[stop], isFile, pos) == Malformed(err.value))
  {
    positives := [];
    negFiles := map[];
    for i := 0 to |entries|
      invariant i <= Processed(entries, isFile)
      invariant positives == Positives(entries[..i], isFile, pos)
      invariant negFiles == NegGroups(entries[..i], isFile, pos)
    {
      var entry := entries[i];
      assert entries[..i + 1][..i] == entries[..i];
      if isFile(entry) {
        var tileId := TileIdOf(entry);
        if tileId.Err? {
          return positives, negFiles, Some(tileId.error);
        }
        var t := tileId.value;
        if t in pos {
          positives := positives + [entry];
        } else {
          if t !in negFiles {
            negFiles := negFiles[t := []];
          }
          negFiles := negFiles[t := negFiles[t] + [entry]];
        }
      }
    }
    assert entries[..|entries|] == entries;
    err := None;
  }

  /** The dictionary the sorting loop builds holds each tile's negative
      group under its id, and no other key. */
  lemma {:induction false} NegGroupsMatch(entries: seq<string>, isFile: string -> bool, pos: set<string>)
    ensures GroupsMatch(NegGroups(entries, isFile, pos), entries, isFile, pos)
  {
    if entries != [] {
      var i := |entries| - 1;
      NegGroupsMatch(entries[..i], isFile, pos);
      assert entries[..i + 1] == entries;
      var groups := NegGroups(entries[..i], isFile, pos);
      match RouteOf(entries[i], isFile, pos)
      case Negative(t) => GroupGrows(entries, i, isFile, pos, groups, t);
      case _ => GroupsUnchanged(entries, i, isFile, pos, groups);
    }
  }

  /** `groups` holds, under each tile id that has negative entries among
      `entries`, exactly those entries in listing order, and nothing else. */
  ghost predicate GroupsMatch(groups: map<string, seq<string>>, entries: seq<string>, isFile: string -> bool, pos: set<string>)
  {
    && (forall t :: t in groups <==> Group(entries, isFile, pos, t) != [])
    && (forall t :: t in groups ==> groups[t] == Group(entries, isFile, pos, t))
  }

  /** One more entry extends the group of its own tile id only. */
  lemma GroupExtend(entries: seq<string>, i: nat, isFile: string -> bool, pos: set<string>, t: string)
    requires i < |entries|
    ensures Group(entries[..i + 1], isFile, pos, t)
         == Group(entries[..i], isFile, pos, t) + (if RouteOf(entries[i], isFile, pos) == Negative(t) then [entries[i]] else [])
  {
    assert entries[..i + 1][..i] == entries[..i];
  }

  lemma GroupsUnchanged(entries: seq<string>, i: nat, isFile: string -> bool, pos: set<string>, groups: map<string, seq<string>>)
    requires i < |entries| && !RouteOf(entries[i], isFile, pos).Negative?
    requires GroupsMatch(groups, entries[..i], isFile, pos)
    ensures GroupsMatch(groups, entries[..i + 1], isFile, pos)
  {
    forall u
      ensures u in groups <==> Group(entries[..i + 1], isFile, pos, u) != []
      ensures u in groups ==> groups[u] == Group(entries[..i + 1], isFile, pos, u)
    {
      GroupExtend(entries, i, isFile, pos, u);
    }
  }

  lemma GroupGrows(entries: seq<string>, i: nat, isFile: string -> bool, pos: set<string>, groups: map<string, seq<string>>, t: string)
    requires i < |entries| && RouteOf(entries[i], isFile, pos) == Negative(t)
    requires GroupsMatch(groups, entries[..i], isFile, pos)
    ensures GroupsMatch(groups[t := (if t in groups then groups[t] else []) + [entries[i]]], entries[..i + 1], isFile, pos)
  {
    var updated := groups[t := (if t in groups then groups[t] else []) + [entries[i]]];
    forall u
      ensures u in updated <==> Group(entries[..i + 1], isFile, pos, u) != []
      ensures u in updated ==> updated[u] == Group(entries[..i + 1], isFile, pos, u)
    {
      GroupExtend(entries, i, isFile, pos, u);
    }
  }

  /** A group holds exactly the listed entries whose route is that tile's
      negative group, so no group is keyed by a positive tile id. */
  lemma {:induction false} GroupMembers(entries: seq<string>, isFile: string -> bool, pos: set<string>, t: string)
    ensures forall e :: e in Group(entries, isFile, pos, t) <==> e in entries && RouteOf(e, isFile, pos) == Negative(t)
    ensures Group(entries, isFile, pos, t) != [] ==> t !in pos
  {
    if entries != [] {
      var front := entries[..|entries| - 1];
      GroupMembers(front, isFile, pos, t);
      assert entries == front + [entries[|entries| - 1]];
      var g := Group(entries, isFile, pos, t);
      if g != [] {
        assert RouteOf(g[0], isFile, pos) == Negative(t);
      }
    }
  }

  /** The positive directory receives exactly the listed entries whose route
      is positive. */
  lemma {:induction false} PositiveMembers(entries: seq<string>, isFile: string -> bool, pos: set<string>)
    ensures forall e :: e in Positives(entries, isFile, pos) <==> e in entries && RouteOf(e, isFile, pos).Positive?
  {
    if entries != [] {
      var front := entries[..|entries| - 1];
      PositiveMembers(front, isFile, pos);
      assert entries == front + [entries[|entries| - 1]];
    }
  }

  /** No key of `neg_files` is a positive tile id. */
  lemma NoNegativeKeyIsPositive(groups: map<string, seq<string>>, entries: seq<string>, isFile: string -> bool, pos: set<string>)
    requires GroupsMatch(groups, entries, isFile, pos)
    ensures forall t :: t in groups ==> t !in pos
  {
    forall t | t in groups
      ensures t !in pos
    {
      GroupMembers(entries, isFile, pos, t);
    }
  }

  /** A listed file with a well-formed name goes to exactly one place: the
      positive directory when its tile id is positive, and otherwise the
      group of its own tile id and no other group. */
  lemma OneDestination(groups: map<string, seq<string>>, entries: seq<string>, isFile: string -> bool, pos: set<string>, e: string)
    requires GroupsMatch(groups, entries, isFile, pos)
    requires e in entries && isFile(e) && TileIdOf(e).Ok?
    ensures e in Positives(entries, isFile, pos) <==> TileIdOf(e).value in pos
    ensures TileIdOf(e).value !in pos ==> TileIdOf(e).value in groups && e in groups[TileIdOf(e).value]
    ensures forall u :: u in groups && e in groups[u] ==> u == TileIdOf(e).value && u !in pos
  {
    var t := TileIdOf(e).value;
    PositiveMembers(entries, isFile, pos);
    GroupMembers(entries, isFile, pos, t);
    forall u | u in groups && e in groups[u]
      ensures u == t && u !in pos
    {
      GroupMembers(entries, isFile, pos, u);
    }
  }

  // ---------------------------------------------------------------------
  // Copying a sample of the negative groups
  // ---------------------------------------------------------------------

  /** `int(x)` for a float: truncation toward zero. */
  function Truncate(x: real): (r: int)
    ensures 0.0 <= x ==> r as real <= x < r as real + 1.0
    ensures x < 0.0 ==> r as real - 1.0 < x <= r as real
  {
    if x >= 0.0 then x.Floor else -((-x).Floor)
  }

  /** `int(len(neg_files_list) * float(args.negative_sample))`. */
  function SampleCount(groups: nat, fraction: real): (count: int)
    ensures 0.0 <= fraction ==> 0 <= count
    ensures fraction < 0.0 && groups > 0 ==> count <= 0
  {
    Truncate(groups as real * fraction)
  }

  /** A fraction between 0 and 1 selects between none and all of the groups,
      and the default fraction 1.0 selects all of them. */
  lemma SampleCountBounds(groups: nat, fraction: real)
    ensures 0.0 <= fraction <= 1.0 ==> 0 <= SampleCount(groups, fraction) <= groups
    ensures SampleCount(groups, 1.0) == groups
  {
    if 0.0 <= fraction <= 1.0 {
      assert groups as real * fraction <= groups as real * 1.0 by {
        assert groups as real * (1.0 - fraction) >= 0.0;
      }
      assert 0.0 <= groups as real * fraction;
    }
  }

  /** `shuffled` is a permutation of the keys of `groups`: what
      `random.shuffle` leaves in `neg_files_list`. It lists every key once. */
  ghost predicate IsShuffleOf(shuffled: seq<string>, groups: map<string, seq<string>>): (shuffle: bool)
    ensures shuffle ==>
      && |shuffled| == |groups|
      && (forall k :: k in shuffled <==> k in groups)
      && (forall i, j :: 0 <= i < j < |shuffled| ==> shuffled[i] != shuffled[j])
  {
    PermutationOfKeys(shuffled, groups.Keys);
    multiset(shuffled) == multiset(groups.Keys)
  }

  /** A sequence with the same elements as a set, counted with their
      multiplicity, lists each element of the set exactly once. */
  lemma PermutationOfKeys(shuffled: seq<string>, keys: set<string>)
    ensures multiset(shuffled) == multiset(keys) ==>
      && |shuffled| == |keys|
      && (forall k :: k in shuffled <==> k in keys)
      && (forall i, j :: 0 <= i < j < |shuffled| ==> shuffled[i] != shuffled[j])
  {
    if multiset(shuffled) == multiset(keys) {
      assert |multiset(shuffled)| == |shuffled|;
      forall k
        ensures k in shuffled <==> k in keys
      {
        assert k in shuffled <==> k in multiset(shuffled);
      }
      forall i, j | 0 <= i < j < |shuffled|
        ensures shuffled[i] != shuffled[j]
      {
        var a, b := shuffled[i], shuffled[j];
        assert shuffled == shuffled[..i] + [a] + shuffled[i + 1..j] + [b] + shuffled[j + 1..];
        assert multiset(shuffled)[a] >= 1 + (if a == b then 1 else 0);
      }
    }
  }

  /** The files of the groups of `keys`, group after group. */
  function GroupsInOrder(groups: map<string, seq<string>>, keys: seq<string>): seq<string>
    requires forall k :: k in keys ==> k in groups
  {
    if keys == [] then []
    else GroupsInOrder(groups, keys[..|keys| - 1]) + groups[keys[|keys| - 1]]
  }

  /** The copying loop: the first `SampleCount` groups of the shuffled list
      are copied whole, file by file; a count above the number of groups
      (a fraction above 1) raises once the list is exhausted. */
  method CopyNegatives(negFiles: map<string, seq<string>>, shuffled: seq<string>, fraction: real)
    returns (copied: seq<string>, err: Option<Error>)
    requires IsShuffleOf(shuffled, negFiles)
    ensures var count := SampleCount(|shuffled|, fraction);
      var taken := if count < 0 then 0 else if count > |shuffled| then |shuffled| else count;
      && copied == GroupsInOrder(negFiles, shuffled[..taken])
      && (err.None? <==> count <= |shuffled|)
      && (err.Some? ==> err.value == IndexError(|shuffled|, |shuffled|))
    ensures 0.0 <= fraction <= 1.0 ==> err.None?
    ensures fraction == 1.0 ==> err.None? && copied == GroupsInOrder(negFiles, shuffled)
  {
    SampleCountBounds(|shuffled|, fraction);
    var count := SampleCount(|shuffled|, fraction);
    copied := [];
    for idx := 0 to if count < 0 then 0 else count
      invariant idx <= |shuffled|
      invariant copied == GroupsInOrder(negFiles, shuffled[..idx])
    {
      if idx >= |shuffled| {
        return copied, Some(IndexError(idx, |shuffled|));
      }
      var group := negFiles[shuffled[idx]];
      ghost var before := copied;
      for p := 0 to |group|
        invariant copied == before + group[..p]
      {
        copied := copied + [group[p]];
      }
      assert shuffled[..idx + 1][..idx] == shuffled[..idx];
      assert group[..|group|] == group;
    }
    assert shuffled[..|shuffled|] == shuffled;
    err := None;
  }

  // ---------------------------------------------------------------------
  // Every file is copied once
  // ---------------------------------------------------------------------

  /** The negative entries whose tile id is in `tiles`, in listing order. */
  function NegativesIn(entries: seq<string>, isFile: string -> bool, pos: set<string>, tiles: seq<string>): seq<string>
  {
    if entries == [] then []
    else
      var last := entries[|entries| - 1];
      var route := RouteOf(last, isFile, pos);
      NegativesIn(entries[..|entries| - 1], isFile, pos, tiles) + (if route.Negative? && route.tileId in tiles then [last] else [])
  }

  lemma {:induction false} NegativesInAddTile(entries: seq<string>, isFile: string -> bool, pos: set<string>, tiles: seq<string>, t: string)
    requires t !in tiles
    ensures multiset(NegativesIn(entries, isFile, pos, tiles + [t]))
         == multiset(NegativesIn(entries, isFile, pos, tiles)) + multiset(Group(entries, isFile, pos, t))
  {
    if entries != [] {
      NegativesInAddTile(entries[..|entries| - 1], isFile, pos, tiles, t);
    }
  }

  /** The groups of a list of distinct tile ids, one after the other, hold
      the negative entries of those tiles. */
  lemma {:induction false} GroupsInOrderAreNegatives(entries: seq<string>, isFile: string -> bool, pos: set<string>,
                                                      groups: map<string, seq<string>>, keys: seq<string>)
    requires forall k :: k in keys ==> k in groups && groups[k] == Group(entries, isFile, pos, k)
    requires forall i, j :: 0 <= i < j < |keys| ==> keys[i] != keys[j]
    ensures multiset(GroupsInOrder(groups, keys)) == multiset(NegativesIn(entries, isFile, pos, keys))
  {
    if keys == [] {
      NegativesInNone(entries, isFile, pos);
    } else {
      var n := |keys| - 1;
      var front, last := keys[..n], keys[n];
      assert keys == front + [last];
      GroupsInOrderAreNegatives(entries, isFile, pos, groups, front);
      NegativesInAddTile(entries, isFile, pos, front, last);
    }
  }

  lemma {:induction false} NegativesInNone(entries: seq<string>, isFile: string -> bool, pos: set<string>)
    ensures NegativesIn(entries, isFile, pos, []) == []
  {
    if entries != [] {
      NegativesInNone(entries[..|entries| - 1], isFile, pos);
    }
  }

  /** Without a malformed name, the files split into the positive entries
      and the negative entries of the tiles in `tiles`, when `tiles` holds
      every negative tile id. */
  lemma {:induction false} FilesSplit(entries: seq<string>, isFile: string -> bool, pos: set<string>, tiles: seq<string>)
    requires forall j :: 0 <= j < |entries| ==> !IsMalformed(entries[j], isFile)
    requires forall j :: 0 <= j < |entries| && RouteOf(entries[j], isFile, pos).Negative? ==>
      RouteOf(entries[j], isFile, pos).tileId in tiles
    ensures multiset(Files(entries, isFile))
         == multiset(Positives(entries, isFile, pos)) + multiset(NegativesIn(entries, isFile, pos, tiles))
  {
    if entries != [] {
      var front := entries[..|entries| - 1];
      assert forall j :: 0 <= j < |front| ==> front[j] == entries[j];
      FilesSplit(front, isFile, pos, tiles);
    }
  }

  /** With the default fraction, every regular file of the listing is copied
      exactly once, to the positive directory or with its negative group. */
  lemma EveryFileCopiedOnce(entries: seq<string>, isFile: string -> bool, pos: set<string>,
                            negFiles: map<string, seq<string>>, shuffled: seq<string>)
    requires Processed(entries, isFile) == |entries|
    requires negFiles == NegGroups(entries, isFile, pos)
    requires IsShuffleOf(shuffled, negFiles)
    ensures multiset(Positives(entries, isFile, pos) + GroupsInOrder(negFiles, shuffled)) == multiset(Files(entries, isFile))
  {
    NegGroupsMatch(entries, isFile, pos);
    ShuffledGroupsMatch(entries, isFile, pos, negFiles, shuffled);
    GroupsInOrderAreNegatives(entries, isFile, pos, negFiles, shuffled);
    NegativeTilesListed(entries, isFile, pos, negFiles, shuffled);
    FilesSplit(entries, isFile, pos, shuffled);
  }

  lemma ShuffledGroupsMatch(entries: seq<string>, isFile: string -> bool, pos: set<string>,
                            negFiles: map<string, seq<string>>, shuffled: seq<string>)
    requires GroupsMatch(negFiles, entries, isFile, pos)
    requires IsShuffleOf(shuffled, negFiles)
    ensures forall k :: k in shuffled ==> k in negFiles && negFiles[k] == Group(entries, isFile, pos, k)
  {
  }

  lemma NegativeTilesListed(entries: seq<string>, isFile: string -> bool, pos: set<string>,
                            negFiles: map<string, seq<string>>, shuffled: seq<string>)
    requires GroupsMatch(negFiles, entries, isFile, pos)
    requires IsShuffleOf(shuffled, negFiles)
    ensures forall j :: 0 <= j < |entries| && RouteOf(entries[j], isFile, pos).Negative? ==>
      RouteOf(entries[j], isFile, pos).tileId in shuffled
  {
    forall j | 0 <= j < |entries| && RouteOf(entries[j], isFile, pos).Negative?
      ensures RouteOf(entries[j], isFile, pos).tileId in shuffled
    {
      var t := RouteOf(entries[j], isFile, pos).tileId;
      GroupMembers(entries, isFile, pos, t);
      assert entries[j] in Group(entries, isFile, pos, t);
    }
  }
}
