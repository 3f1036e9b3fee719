/** The expiry sweep: every `project:*` entry older than the TTL is removed
    from the project table, after every stored object under its
    `__outputs/<slug>/` prefix has been deleted from the bucket. The table
    and the bucket are in-memory maps and sets here. */
module Cleanup {
  import opened Wrappers
  import opened Strings
  import opened Storage
  import Numbers

  const HourMillis := 60 * 60 * 1000

  /** `parseInt(process.env.TTL_HOURS || '24')`; `None` is `NaN`. */
  function TtlHours(env: Option<string>): Option<int>
  {
    Numbers.ParseInt(if env.None? || env.value == "" then "24" else env.value)
  }

  /** `now - TTL_HOURS * 60 * 60 * 1000`; `NaN` stays `NaN`. */
  function Cutoff(now: int, ttlHours: Option<int>): (r: Option<int>)
    ensures r.Some? <==> ttlHours.Some?
    ensures r.Some? ==> r.value + ttlHours.value * 3600000 == now
  {
    if ttlHours.Some? then Some(now - ttlHours.value * HourMillis) else None
  }

  datatype ProjectInfo = ProjectInfo(slug: string, createdAt: int)

  /** A table value as the sweep reads it: absent or empty, a project
      record, or text `JSON.parse` throws on. */
  datatype Entry = Missing | Project(info: ProjectInfo) | Unparsable

  /** `project.createdAt < cutoff`; every comparison with `NaN` is false. */
  predicate Expired(e: Entry, cutoff: Option<int>)
  {
    e.Project? && cutoff.Some? && e.info.createdAt < cutoff.value
  }

  /** The project table, the bucket's object names, and the number of
      delete requests sent so far. */
  datatype State = State(table: map<string, Entry>, bucket: set<string>, deletes: nat)

  /** `redis.get(key)`, parsed. */
  function Lookup(table: map<string, Entry>, key: string): Entry
  {
    if key in table then table[key] else Missing
  }

  /** The listing of one prefix. */
  function Under(bucket: set<string>, prefix: string): (r: set<string>)
    ensures forall o :: o in r <==> o in bucket && StartsWith(o, prefix)
  {
    set o | o in bucket && StartsWith(o, prefix)
  }

  /** `deleteMinIOFiles`: list the slug's prefix and, when the listing is
      not empty, delete what it lists in one request. */
  function Purge(s: State, slug: string): (r: State)
    ensures r.table == s.table
    ensures forall o :: o in r.bucket <==> o in s.bucket && !StartsWith(o, OutputPrefix(slug))
    ensures r.deletes == s.deletes + (if Under(s.bucket, OutputPrefix(slug)) == {} then 0 else 1)
  {
    var listed := Under(s.bucket, OutputPrefix(slug));
    if listed == {} then s else State(s.table, s.bucket - listed, s.deletes + 1)
  }

  /** One iteration of the loop; `None` when `JSON.parse` throws, which
      ends the sweep. */
  function Step(s: State, key: string, cutoff: Option<int>): Option<State>
  {
    match Lookup(s.table, key)
    case Missing => Some(s)
    case Unparsable => None
    case Project(p) =>
      if Expired(Project(p), cutoff) then
        var purged := Purge(s, p.slug);
        Some(State(purged.table - {key}, purged.bucket, purged.deletes))
      else Some(s)
  }

  /** The final state, and whether the sweep ran to the end. */
  datatype Outcome = Outcome(state: State, completed: bool)

  function Sweep(s: State, keys: seq<string>, cutoff: Option<int>): Outcome
    decreases |keys|
  {
    if keys == [] then Outcome(s, true)
    else
      match Step(s, keys[0], cutoff)
      case None => Outcome(s, false)
      case Some(next) => Sweep(next, keys[1..], cutoff)
  }

  /** The table and the bucket, updated in place. */
  class ProjectStore {
    var table: map<string, Entry>
    var bucket: set<string>
    var deletes: nat

    constructor(table: map<string, Entry>, bucket: set<string>)
      ensures this.table == table && this.bucket == bucket && deletes == 0
    {
      this.table := table;
      this.bucket := bucket;
      deletes := 0;
    }

    function Snapshot(): State
      reads this
    {
      State(table, bucket, deletes)
    }

    method DeleteMinIOFiles(slug: string)
      modifies this
      ensures Snapshot() == Purge(old(Snapshot()), slug)
    {
      var prefix := OutputPrefix(slug);
      var listed := set o | o in bucket && StartsWith(o, prefix);
      if listed != {} {
        bucket := bucket - listed;
        deletes := deletes + 1;
      }
    }

    /** `cleanupExpiredProjects` over the keys `redis.keys('project:*')`
        returned, at time `now` with the `TTL_HOURS` setting `env`;
        `completed` is false when a value failed to parse. */
    method CleanupExpiredProjects(now: int, env: Option<string>, keys: seq<string>) returns (completed: bool)
      modifies this
      ensures Outcome(Snapshot(), completed) == Sweep(old(Snapshot()), keys, Cutoff(now, TtlHours(env)))
    {
      var cutoff := Cutoff(now, TtlHours(env));
      var i := 0;
      while i < |keys|
        invariant 0 <= i <= |keys|
        invariant Sweep(Snapshot(), keys[i..], cutoff) == Sweep(old(Snapshot()), keys, cutoff)
      {
        var key := keys[i];
        assert keys[i..][1..] == keys[i + 1..];
        var data := Lookup(table, key);
        match data {
          case Missing =>
          case Unparsable =>
            return false;
          case Project(project) =>
            if Expired(data, cutoff) {
              DeleteMinIOFiles(project.slug);
              table := table - {key};
            }
        }
        i := i + 1;
      }
      return true;
    }
  }

  // ---------------------------------------------------------------------
  // Lemmas
  // ---------------------------------------------------------------------

  /** No key of the sweep holds text that fails to parse. */
  predicate AllParse(table: map<string, Entry>, keys: seq<string>)
  {
    forall i :: 0 <= i < |keys| ==> Lookup(table, keys[i]) != Unparsable
  }

  /** A key among those swept whose project has expired. */
  predicate Removed(table: map<string, Entry>, keys: seq<string>, k: string, cutoff: Option<int>)
  {
    k in keys && Expired(Lookup(table, k), cutoff)
  }

  /** An object under the prefix of some expired project among those swept. */
  predicate Doomed(table: map<string, Entry>, keys: seq<string>, o: string, cutoff: Option<int>)
  {
    exists i :: 0 <= i < |keys| && Expired(Lookup(table, keys[i]), cutoff)
                && StartsWith(o, OutputPrefix(Lookup(table, keys[i]).info.slug))
  }

  /** The sweep runs to the end exactly when every value parses. */
  lemma {:induction false} CompletedIff(s: State, keys: seq<string>, cutoff: Option<int>)
    ensures Sweep(s, keys, cutoff).completed <==> AllParse(s.table, keys)
    decreases |keys|
  {
    if keys != [] {
      var k := keys[0];
      if Lookup(s.table, k) != Unparsable {
        var next := Step(s, k, cutoff).value;
        CompletedIff(next, keys[1..], cutoff);
        StepLookup(s, k, cutoff);
        if AllParse(s.table, keys) {
          assert AllParse(next.table, keys[1..]) by {
            forall i | 0 <= i < |keys[1..]| ensures Lookup(next.table, keys[1..][i]) != Unparsable {
              assert keys[1..][i] == keys[i + 1];
            }
          }
        } else {
          var i :| 0 <= i < |keys| && Lookup(s.table, keys[i]) == Unparsable;
          assert i > 0 && keys[1..][i - 1] == keys[i];
        }
      }
    }
  }

  /** A step changes the table at most by removing the key it looked at. */
  lemma StepLookup(s: State, key: string, cutoff: Option<int>)
    requires Step(s, key, cutoff).Some?
    ensures var next := Step(s, key, cutoff).value;
      (forall k :: k != key ==> Lookup(next.table, k) == Lookup(s.table, k))
      && (forall k :: k in next.table ==> k in s.table && next.table[k] == s.table[k])
      && (Expired(Lookup(s.table, key), cutoff) ==> key !in next.table)
      && (!Expired(Lookup(s.table, key), cutoff) ==> next == s)
  {
  }

  /** After a complete sweep, a key is gone exactly when it was swept and
      its project had expired; every other entry, unparsable or missing
      included, keeps its value. */
  lemma {:induction false} SweepTable(s: State, keys: seq<string>, cutoff: Option<int>)
    requires AllParse(s.table, keys)
    ensures var t := Sweep(s, keys, cutoff).state.table;
      (forall k :: k in t <==> k in s.table && !Removed(s.table, keys, k, cutoff))
      && (forall k :: k in t ==> t[k] == s.table[k])
    decreases |keys|
  {
    if keys != [] {
      var key := keys[0];
      var next := Step(s, key, cutoff).value;
      StepLookup(s, key, cutoff);
      assert AllParse(next.table, keys[1..]) by {
        forall i | 0 <= i < |keys[1..]| ensures Lookup(next.table, keys[1..][i]) != Unparsable {
          assert keys[1..][i] == keys[i + 1];
        }
      }
      SweepTable(next, keys[1..], cutoff);
      forall k ensures k in Sweep(s, keys, cutoff).state.table <==> k in s.table && !Removed(s.table, keys, k, cutoff) {
        assert k in keys <==> k == key || k in keys[1..];
      }
    }
  }

  /** An object is doomed by the swept keys when it is doomed by the first
      one or by the rest, read in the table the first step leaves. */
  lemma DoomedStep(s: State, keys: seq<string>, o: string, cutoff: Option<int>)
    requires keys != [] && Step(s, keys[0], cutoff).Some?
    ensures var e := Lookup(s.table, keys[0]);
      Doomed(s.table, keys, o, cutoff)
      <==> (Expired(e, cutoff) && StartsWith(o, OutputPrefix(e.info.slug)))
           || Doomed(Step(s, keys[0], cutoff).value.table, keys[1..], o, cutoff)
  {
    var key := keys[0];
    var e := Lookup(s.table, key);
    var next := Step(s, key, cutoff).value;
    StepLookup(s, key, cutoff);
    if Doomed(s.table, keys, o, cutoff) && !(Expired(e, cutoff) && StartsWith(o, OutputPrefix(e.info.slug))) {
      var i :| 0 <= i < |keys| && Expired(Lookup(s.table, keys[i]), cutoff)
               && StartsWith(o, OutputPrefix(Lookup(s.table, keys[i]).info.slug));
      assert i > 0 && keys[i] != key;
      assert keys[1..][i - 1] == keys[i];
    }
    if Doomed(next.table, keys[1..], o, cutoff) {
      var i :| 0 <= i < |keys[1..]| && Expired(Lookup(next.table, keys[1..][i]), cutoff)
               && StartsWith(o, OutputPrefix(Lookup(next.table, keys[1..][i]).info.slug));
      assert keys[1..][i] == keys[i + 1];
      if keys[i + 1] == key {
        assert Lookup(next.table, key) == Missing;
      }
    }
  }

  /** After a complete sweep, an object is gone exactly when it lay under
      the prefix of a swept project that had expired. */
  lemma {:induction false} SweepBucket(s: State, keys: seq<string>, cutoff: Option<int>)
    requires AllParse(s.table, keys)
    ensures forall o :: o in Sweep(s, keys, cutoff).state.bucket <==> o in s.bucket && !Doomed(s.table, keys, o, cutoff)
    decreases |keys|
  {
    if keys != [] {
      var key := keys[0];
      var next := Step(s, key, cutoff).value;
      StepLookup(s, key, cutoff);
      assert AllParse(next.table, keys[1..]) by {
        forall i | 0 <= i < |keys[1..]| ensures Lookup(next.table, keys[1..][i]) != Unparsable {
          assert keys[1..][i] == keys[i + 1];
        }
      }
      SweepBucket(next, keys[1..], cutoff);
      forall o ensures o in Sweep(s, keys, cutoff).state.bucket <==> o in s.bucket && !Doomed(s.table, keys, o, cutoff) {
        DoomedStep(s, keys, o, cutoff);
      }
    }
  }

  /** A delete request is sent only for a non-empty listing, so a sweep
      that finds nothing to delete sends none. */
  lemma {:induction false} NoRequestWithoutObjects(s: State, keys: seq<string>, cutoff: Option<int>)
    requires forall o :: o in s.bucket ==> !Doomed(s.table, keys, o, cutoff)
    ensures Sweep(s, keys, cutoff).state.deletes == s.deletes
    ensures Sweep(s, keys, cutoff).state.bucket == s.bucket
    decreases |keys|
  {
    if keys != [] {
      var key := keys[0];
      if Step(s, key, cutoff).Some? {
        var next := Step(s, key, cutoff).value;
        var e := Lookup(s.table, key);
        StepLookup(s, key, cutoff);
        if Expired(e, cutoff) {
          assert Under(s.bucket, OutputPrefix(e.info.slug)) == {} by {
            forall o | o in s.bucket ensures !StartsWith(o, OutputPrefix(e.info.slug)) {
              assert !Doomed(s.table, keys, o, cutoff);
            }
          }
        }
        assert next.bucket == s.bucket && next.deletes == s.deletes;
        forall o | o in next.bucket ensures !Doomed(next.table, keys[1..], o, cutoff) {
          DoomedStep(s, keys, o, cutoff);
        }
        NoRequestWithoutObjects(next, keys[1..], cutoff);
      }
    }
  }

  /** With a `NaN` TTL nothing expires: a complete sweep changes nothing. */
  lemma NaNTtlKeepsAll(s: State, keys: seq<string>)
    requires AllParse(s.table, keys)
    ensures Sweep(s, keys, None).state.table == s.table
    ensures Sweep(s, keys, None).state.bucket == s.bucket
  {
    SweepTable(s, keys, None);
    NoRequestWithoutObjects(s, keys, None);
  }

  /** The objects of a project whose slug no expired swept project shares
      stay in the bucket, since slugs hold no `/` and distinct slugs have
      disjoint prefixes. */
  lemma OthersObjectsKept(s: State, keys: seq<string>, cutoff: Option<int>, slug: string, o: string)
    requires AllParse(s.table, keys)
    requires o in s.bucket && StartsWith(o, OutputPrefix(slug)) && '/' !in slug
    requires forall i :: 0 <= i < |keys| && Expired(Lookup(s.table, keys[i]), cutoff) ==>
               Lookup(s.table, keys[i]).info.slug != slug && '/' !in Lookup(s.table, keys[i]).info.slug
    ensures o in Sweep(s, keys, cutoff).state.bucket
  {
    SweepBucket(s, keys, cutoff);
    if Doomed(s.table, keys, o, cutoff) {
      var i :| 0 <= i < |keys| && Expired(Lookup(s.table, keys[i]), cutoff)
               && StartsWith(o, OutputPrefix(Lookup(s.table, keys[i]).info.slug));
      PrefixesDisjoint(Lookup(s.table, keys[i]).info.slug, slug, o);
    }
  }

  /** An unset or empty `TTL_HOURS` means 24 hours. */
  lemma DefaultTtl(env: Option<string>)
    requires env.None? || env == Some("")
    ensures TtlHours(env) == Some(24)
  {
    assert Numbers.Decimal(24) == "24";
    assert Numbers.Decimal(24) + "" == "24";
    Numbers.ParseDecimal(24, "");
  }

  /** A numeric `TTL_HOURS` is read as that many hours. */
  lemma NumericTtl(hours: nat)
    ensures TtlHours(Some(Numbers.Decimal(hours))) == Some(hours)
  {
    assert Numbers.Decimal(hours) + "" == Numbers.Decimal(hours);
    Numbers.ParseDecimal(hours, "");
  }

  /** With the default setting a project is expired exactly when it was
      created more than 24 hours, 86,400,000 milliseconds, before `now`. */
  lemma DefaultExpiry(now: int, p: ProjectInfo)
    ensures Expired(Project(p), Cutoff(now, TtlHours(None))) <==> p.createdAt < now - 86400000
  {
    DefaultTtl(None);
  }
}
