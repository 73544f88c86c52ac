/**
 * The recorder's disk janitor: when the buffer directory's file system is at
 * least 90 % full it deletes the one `.h264` segment with the oldest
 * modification time. The directory is its listing, in listing order, with one
 * modification time per name.
 */
module DiskCleanup {
  import opened Wrappers

  const RecordingSuffix: string := ".h264"
  const DiskThresholdPercent: int := 90

  datatype Entry = Entry(name: string, mtime: int)

  /** A directory listing in the order the operating system returns it. */
  type Listing = seq<Entry>

  /** The janitor only ever looks at names ending in `.h264`. */
  predicate IsRecording(name: string)
  {
    |name| >= |RecordingSuffix| && name[|name| - |RecordingSuffix|..] == RecordingSuffix
  }

  predicate HasRecording(dir: Listing)
  {
    exists k :: 0 <= k < |dir| && IsRecording(dir[k].name)
  }

  /**
   * Entry k is the segment `min(files, key=getmtime)` picks: a recording with
   * the least modification time, and the first such in listing order.
   */
  ghost predicate IsOldest(dir: Listing, k: int)
  {
    && 0 <= k < |dir|
    && IsRecording(dir[k].name)
    && (forall j :: 0 <= j < |dir| && IsRecording(dir[j].name) ==> dir[k].mtime <= dir[j].mtime)
    && (forall j :: 0 <= j < k && IsRecording(dir[j].name) ==> dir[k].mtime < dir[j].mtime)
  }

  /** The oldest recording, scanning the listing as `min` does: a later entry replaces the candidate only when strictly older. */
  function Oldest(dir: Listing): (r: Option<nat>)
    ensures r.Some? <==> HasRecording(dir)
    ensures r.Some? ==> IsOldest(dir, r.value)
  {
    if |dir| == 0 then None
    else
      var rest := Oldest(dir[..|dir| - 1]);
      OldestExtends(dir, rest);
      var last := dir[|dir| - 1];
      if IsRecording(last.name) && (rest.None? || last.mtime < dir[rest.value].mtime) then Some(|dir| - 1)
      else rest
  }

  /** One step of the scan: the candidate for the listing without its last entry, compared with that entry. */
  lemma OldestExtends(dir: Listing, rest: Option<nat>)
    requires |dir| > 0
    requires rest.Some? <==> HasRecording(dir[..|dir| - 1])
    requires rest.Some? ==> IsOldest(dir[..|dir| - 1], rest.value)
    ensures var last := dir[|dir| - 1];
      var r := if IsRecording(last.name) && (rest.None? || last.mtime < dir[rest.value].mtime)
               then Some(|dir| - 1) else rest;
      && (r.Some? <==> HasRecording(dir))
      && (r.Some? ==> IsOldest(dir, r.value))
  {
  }

  /** There is only one oldest recording, so the choice is determined by the listing. */
  lemma OldestUnique(dir: Listing, k: int, m: int)
    requires IsOldest(dir, k) && IsOldest(dir, m)
    ensures k == m
  {
  }

  /** The listing with entry k gone. */
  function Without(dir: Listing, k: nat): (r: Listing)
    requires k < |dir|
    ensures |r| == |dir| - 1
    ensures forall j :: 0 <= j < k ==> r[j] == dir[j]
    ensures forall j :: k <= j < |r| ==> r[j] == dir[j + 1]
  {
    dir[..k] + dir[k + 1..]
  }

  datatype Outcome =
    | UsageUnavailable     // the usage percentage could not be computed (a zero total size); the error is logged
    | BelowThreshold       // usage under 90 %: nothing to do
    | NoRecordings         // usage at or over 90 % but no `.h264` file to delete
    | Removed(name: string)

  datatype Cleanup = Cleanup(outcome: Outcome, dir: Listing)

  /** `used / total * 100 >= 90`, with the division cross-multiplied away. */
  predicate OverThreshold(total: nat, used: nat)
    requires total > 0
  {
    used * 100 >= DiskThresholdPercent * total
  }

  /** One run of the janitor on a file system of `total` bytes with `used` bytes in use. */
  function CleanupDisk(total: nat, used: nat, dir: Listing): (r: Cleanup)
    ensures total == 0 <==> r.outcome.UsageUnavailable?
    ensures r.outcome.BelowThreshold? <==> total > 0 && used * 100 < DiskThresholdPercent * total
    ensures r.outcome.NoRecordings? <==> total > 0 && used * 100 >= DiskThresholdPercent * total && !HasRecording(dir)
    // nothing is deleted unless something is reported deleted
    ensures !r.outcome.Removed? ==> r.dir == dir
    // and then it is exactly the oldest recording, and every other entry stays, in order
    ensures r.outcome.Removed? ==>
      exists k :: IsOldest(dir, k) && r.outcome.name == dir[k].name && r.dir == Without(dir, k)
  {
    if total == 0 then Cleanup(UsageUnavailable, dir)
    else if !OverThreshold(total, used) then Cleanup(BelowThreshold, dir)
    else match Oldest(dir)
      case None => Cleanup(NoRecordings, dir)
      case Some(k) => Cleanup(Removed(dir[k].name), Without(dir, k))
  }

  /** The names in a listing. */
  function Names(dir: Listing): (r: set<string>)
  {
    set k | 0 <= k < |dir| :: dir[k].name
  }

  /** The listing with every entry called `name` given the time `mtime`. */
  function Rewrite(dir: Listing, name: string, mtime: int): (r: Listing)
    ensures |r| == |dir|
    ensures forall k :: 0 <= k < |dir| ==> r[k] == (if dir[k].name == name then Entry(name, mtime) else dir[k])
  {
    seq(|dir|, k requires 0 <= k < |dir| => if dir[k].name == name then Entry(name, mtime) else dir[k])
  }

  /**
   * The recording child writing segment `name` at time `mtime`: an existing
   * name is rewritten in place with the new time, and a new name is appended
   * (where a new name appears in the listing is this model's choice).
   */
  function WriteSegment(dir: Listing, name: string, mtime: int): (r: Listing)
    ensures Names(r) == Names(dir) + {name}
    ensures |r| == |dir| + (if name in Names(dir) then 0 else 1)
    ensures forall k :: 0 <= k < |dir| && dir[k].name != name ==> r[k] == dir[k]
    ensures exists k :: 0 <= k < |r| && r[k] == Entry(name, mtime)
  {
    if name in Names(dir) then
      var r := Rewrite(dir, name, mtime);
      assert Names(r) == Names(dir) by {
        forall x | x in Names(dir) ensures x in Names(r) {
          var k :| 0 <= k < |dir| && dir[k].name == x;
          assert r[k].name == x;
        }
      }
      var k :| 0 <= k < |dir| && dir[k].name == name;
      assert r[k] == Entry(name, mtime);
      r
    else
      var r := dir + [Entry(name, mtime)];
      assert r[|dir|] == Entry(name, mtime);
      assert Names(r) == Names(dir) + {name} by {
        forall x | x in Names(dir) ensures x in Names(r) {
          var k :| 0 <= k < |dir| && dir[k].name == x;
          assert r[k].name == x;
        }
      }
      r
  }

  // The directory as a map from name to modification time.

  ghost predicate DistinctNames(dir: Listing)
  {
    forall i, j :: 0 <= i < j < |dir| ==> dir[i].name != dir[j].name
  }

  ghost function Files(dir: Listing): (r: map<string, int>)
  {
    if |dir| == 0 then map[] else Files(dir[..|dir| - 1])[dir[|dir| - 1].name := dir[|dir| - 1].mtime]
  }

  /** With distinct names, the map holds exactly the listed names, each with its own time. */
  lemma {:induction false} FilesOfListing(dir: Listing)
    requires DistinctNames(dir)
    ensures forall k :: 0 <= k < |dir| ==> dir[k].name in Files(dir) && Files(dir)[dir[k].name] == dir[k].mtime
    ensures forall n :: n in Files(dir) ==> exists k :: 0 <= k < |dir| && dir[k].name == n
  {
    if |dir| > 0 {
      var p := dir[..|dir| - 1];
      FilesOfListing(p);
      forall k | 0 <= k < |dir|
        ensures dir[k].name in Files(dir) && Files(dir)[dir[k].name] == dir[k].mtime
      {
        if k < |dir| - 1 {
          assert p[k] == dir[k];
        }
      }
      forall n | n in Files(dir)
        ensures exists k :: 0 <= k < |dir| && dir[k].name == n
      {
        if n != dir[|dir| - 1].name {
          var k :| 0 <= k < |p| && p[k].name == n;
          assert dir[k].name == n;
        }
      }
    }
  }

  lemma RemoveUpdated<K, V>(m: map<K, V>, a: K, v: V)
    requires a !in m
    ensures m[a := v] - {a} == m
  {
  }

  lemma RemoveUpdateCommute<K, V>(m: map<K, V>, a: K, b: K, v: V)
    requires a != b
    ensures (m - {a})[b := v] == m[b := v] - {a}
  {
  }

  /** Removing entry k from a listing with distinct names removes that one name from the map and nothing else. */
  lemma {:induction false} FilesWithout(dir: Listing, k: nat)
    requires DistinctNames(dir) && k < |dir|
    ensures Files(Without(dir, k)) == Files(dir) - {dir[k].name}
    decreases |dir|
  {
    var n := |dir|;
    var p := dir[..n - 1];
    var last := dir[n - 1];
    assert Files(dir) == Files(p)[last.name := last.mtime];
    if k == n - 1 {
      assert Without(dir, k) == p;
      FilesOfListing(p);
      assert last.name !in Files(p) by {
        forall j | 0 <= j < |p|
          ensures p[j].name != last.name
        {
          assert p[j] == dir[j];
        }
      }
      RemoveUpdated(Files(p), last.name, last.mtime);
    } else {
      var r := Without(dir, k);
      assert r[..|r| - 1] == Without(p, k);
      assert r[|r| - 1] == last;
      assert Files(r) == Files(Without(p, k))[last.name := last.mtime];
      assert DistinctNames(p);
      FilesWithout(p, k);
      assert p[k] == dir[k];
      RemoveUpdateCommute(Files(p), dir[k].name, last.name, last.mtime);
    }
  }

  /** Removing entry k loses at most its name: every other name is still listed. */
  lemma NamesWithout(dir: Listing, k: nat)
    requires k < |dir|
    ensures Names(dir) - {dir[k].name} <= Names(Without(dir, k))
  {
    var r := Without(dir, k);
    forall x | x in Names(dir) - {dir[k].name}
      ensures x in Names(r)
    {
      var j :| 0 <= j < |dir| && dir[j].name == x;
      if j < k {
        assert r[j] == dir[j];
      } else {
        assert r[j - 1] == dir[j];
      }
    }
  }

  /** Removing one entry keeps the names distinct. */
  lemma WithoutKeepsDistinct(dir: Listing, k: nat)
    requires DistinctNames(dir) && k < |dir|
    ensures DistinctNames(Without(dir, k))
  {
  }

  /**
   * In terms of the directory as a map from name to modification time:
   * deleting the oldest recording removes one `.h264` file, one with the least
   * time of all `.h264` files, and every other file keeps its name and time.
   */
  lemma OldestFileOfMap(dir: Listing, k: nat)
    requires DistinctNames(dir) && IsOldest(dir, k)
    ensures dir[k].name in Files(dir) && IsRecording(dir[k].name)
    ensures forall n :: n in Files(dir) && IsRecording(n) ==> Files(dir)[dir[k].name] <= Files(dir)[n]
    ensures Files(Without(dir, k)) == Files(dir) - {dir[k].name}
    ensures DistinctNames(Without(dir, k))
  {
    FilesOfListing(dir);
    FilesWithout(dir, k);
    WithoutKeepsDistinct(dir, k);
    forall n | n in Files(dir) && IsRecording(n)
      ensures Files(dir)[dir[k].name] <= Files(dir)[n]
    {
      var j :| 0 <= j < |dir| && dir[j].name == n;
      assert Files(dir)[n] == dir[j].mtime;
    }
  }

  /** The janitor's deletion, seen on the map: exactly one oldest `.h264` file goes, nothing else changes. */
  lemma CleanupRemovesOldestFile(total: nat, used: nat, dir: Listing)
    requires DistinctNames(dir)
    ensures CleanupDisk(total, used, dir).outcome.Removed? ==>
      var name := CleanupDisk(total, used, dir).outcome.name;
      && name in Files(dir)
      && IsRecording(name)
      && (forall n :: n in Files(dir) && IsRecording(n) ==> Files(dir)[name] <= Files(dir)[n])
      && Files(CleanupDisk(total, used, dir).dir) == Files(dir) - {name}
    ensures DistinctNames(CleanupDisk(total, used, dir).dir)
  {
    var r := CleanupDisk(total, used, dir);
    if r.outcome.Removed? {
      var k :| IsOldest(dir, k) && r.outcome.name == dir[k].name && r.dir == Without(dir, k);
      OldestFileOfMap(dir, k);
    }
  }

  /** Writing a segment keeps the names distinct. */
  lemma WriteSegmentKeepsDistinct(dir: Listing, name: string, mtime: int)
    requires DistinctNames(dir)
    ensures DistinctNames(WriteSegment(dir, name, mtime))
  {
    var r := WriteSegment(dir, name, mtime);
    if name !in Names(dir) {
      forall i, j | 0 <= i < j < |r|
        ensures r[i].name != r[j].name
      {
        if j == |dir| {
          assert r[i] == dir[i];
          assert dir[i].name in Names(dir);
        }
      }
    }
  }

  lemma UpdateCommute<K, V>(m: map<K, V>, a: K, b: K, u: V, v: V)
    requires a != b
    ensures m[a := u][b := v] == m[b := v][a := u]
  {
  }

  /** Rewriting entries in place, seen on the map, by induction on the listing. */
  lemma {:induction false} FilesOfRewrite(dir: Listing, name: string, mtime: int)
    requires DistinctNames(dir)
    ensures Files(Rewrite(dir, name, mtime)) == if name in Files(dir) then Files(dir)[name := mtime] else Files(dir)
    decreases |dir|
  {
    if |dir| > 0 {
      var n := |dir|;
      var p := dir[..n - 1];
      var last := dir[n - 1];
      var r := Rewrite(dir, name, mtime);
      assert r[..n - 1] == Rewrite(p, name, mtime);
      assert Files(r) == Files(Rewrite(p, name, mtime))[r[n - 1].name := r[n - 1].mtime];
      assert Files(dir) == Files(p)[last.name := last.mtime];
      FilesOfRewrite(p, name, mtime);
      if last.name == name {
        FilesOfListing(p);
        assert name !in Files(p) by {
          forall k | 0 <= k < |p|
            ensures p[k].name != name
          {
            assert p[k] == dir[k];
          }
        }
      } else {
        assert r[n - 1] == last;
        if name in Files(p) {
          UpdateCommute(Files(p), last.name, name, last.mtime, mtime);
        }
      }
    }
  }

  /** In the map view, writing a segment sets that one name's time and changes no other file. */
  lemma FilesOfWriteSegment(dir: Listing, name: string, mtime: int)
    requires DistinctNames(dir)
    ensures Files(WriteSegment(dir, name, mtime)) == Files(dir)[name := mtime]
  {
    var r := WriteSegment(dir, name, mtime);
    if name in Names(dir) {
      FilesOfListing(dir);
      FilesOfRewrite(dir, name, mtime);
    } else {
      assert r[..|r| - 1] == dir;
    }
  }
}
