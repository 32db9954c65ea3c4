/** recipedb/store.go: the versioned recipe store over two bbolt buckets. bbolt's own promises are built
    in: an update transaction takes effect completely or not at all, and cursors visit keys in byte order. */
module Store {
  import opened Values
  import opened Recipe
  import opened Text
  import opened VersionKeys

  datatype LayerSpec = LayerSpec(name: string, kind: string, sourceRef: string, path: string, ref: string)

  /** recipe.Spec */
  datatype Spec = Spec(name: string, layers: seq<LayerSpec>, mergePolicy: seq<MergeRule>)

  /** versionedSpec */
  datatype Entry = Entry(spec: Spec, updatedAt: int)

  datatype VersionInfo = VersionInfo(version: int, updatedAt: int)

  datatype StoreError = NameRequired | NotFound | Aborted

  type Bucket = map<string, Entry>

  /** The contents of the buckets `recipes` and `recipe_versions`. */
  datatype Db = Db(recipes: map<string, Spec>, versions: map<string, Bucket>)

  ghost predicate WellKeyed(bucket: Bucket) {
    forall k | k in bucket :: IsKey(k)
  }

  // ---- the transactions ----

  function BucketOf(db: Db, name: string): Bucket {
    if name in db.versions then db.versions[name] else map[]
  }

  /** `next` in Put: one more than the version of the cursor's last key. */
  ghost function NextVersion(bucket: Bucket): Int64
    requires WellKeyed(bucket)
  {
    var ks := KeyOrder(bucket.Keys);
    if ks == [] then 1
    else
      assert ks[|ks| - 1] in ks;
      Successor(VersionFromKey(ks[|ks| - 1]))
  }

  ghost function AfterPut(db: Db, spec: Spec, now: int): Db
    requires WellKeyed(BucketOf(db, spec.name))
  {
    var bucket := BucketOf(db, spec.name);
    Db(db.recipes[spec.name := spec],
       db.versions[spec.name := bucket[VersionKey(NextVersion(bucket)) := Entry(spec, now)]])
  }

  function AfterDelete(db: Db, name: string): Db {
    Db(map n | n in db.recipes && n != name :: db.recipes[n], map n | n in db.versions && n != name :: db.versions[n])
  }

  function ReadLatest(db: Db, name: string): Option<Spec> {
    if name in db.recipes then Some(db.recipes[name]) else None
  }

  function ReadVersion(db: Db, name: string, version: Int64): Option<Spec> {
    if VersionKey(version) in BucketOf(db, name) then Some(BucketOf(db, name)[VersionKey(version)].spec) else None
  }

  /** The versions stored under the first `n` of some keys. */
  function VersionInfos(bucket: Bucket, ks: seq<string>, n: nat): (infos: seq<VersionInfo>)
    requires n <= |ks| && forall k | k in ks :: k in bucket && IsKey(k)
    ensures |infos| == n
  {
    if n == 0 then []
    else VersionInfos(bucket, ks, n - 1) + [VersionInfo(VersionFromKey(ks[n - 1]), bucket[ks[n - 1]].updatedAt)]
  }

  /** The versions of a bucket in cursor order. */
  ghost function ReadVersions(bucket: Bucket): seq<VersionInfo>
    requires WellKeyed(bucket)
  {
    var ks := KeyOrder(bucket.Keys);
    VersionInfos(bucket, ks, |ks|)
  }

  // ---- the store ----

  /** A write some other caller commits. */
  datatype Update = PutUpdate(spec: Spec, now: int) | DeleteUpdate(name: string)

  ghost predicate AllWellKeyed(db: Db) {
    forall name | name in db.versions :: WellKeyed(db.versions[name])
  }

  ghost function AfterUpdate(db: Db, u: Update): (after: Db)
    requires AllWellKeyed(db)
    ensures AllWellKeyed(after)
  {
    match u
    case PutUpdate(spec, now) =>
      if spec.name == "" then db
      else
        VersionKeyBack(NextVersion(BucketOf(db, spec.name)));
        AfterPut(db, spec, now)
    case DeleteUpdate(name) => AfterDelete(db, name)
  }

  ghost function AfterUpdates(db: Db, us: seq<Update>): (after: Db)
    requires AllWellKeyed(db)
    ensures AllWellKeyed(after)
    decreases |us|
  {
    if us == [] then db else AfterUpdate(AfterUpdates(db, us[..|us| - 1]), us[|us| - 1])
  }

  class Store {
    var recipes: map<string, Spec>
    var versions: map<string, Bucket>

    ghost function Contents(): Db
      reads this
    {
      Db(recipes, versions)
    }

    ghost predicate Valid()
      reads this
    {
      AllWellKeyed(Contents())
    }

    constructor ()
      ensures Valid() && Contents() == Db(map[], map[])
    {
      recipes, versions := map[], map[];
    }

    /** `commits` says whether the update transaction goes through. */
    method Put(spec: Spec, now: int, commits: bool) returns (r: Result<(), StoreError>)
      requires Valid()
      modifies this
      ensures Valid()
      ensures r == if spec.name == "" then Err(NameRequired) else if !commits then Err(Aborted) else Ok(())
      ensures Contents() == if r.Ok? then AfterUpdate(old(Contents()), PutUpdate(spec, now)) else old(Contents())
    {
      if spec.name == "" { return Err(NameRequired); }
      var newRecipes := recipes[spec.name := spec];
      var nameVersions := BucketOf(Db(recipes, versions), spec.name);
      var next: Int64 := 1;
      var keys := InKeyOrder(nameVersions.Keys);
      if |keys| > 0 {
        var lastKey := keys[|keys| - 1];
        assert lastKey in keys;
        next := Successor(VersionFromKey(lastKey));
      }
      nameVersions := nameVersions[VersionKey(next) := Entry(spec, now)];
      if !commits { return Err(Aborted); }
      VersionKeyBack(next);
      recipes, versions := newRecipes, versions[spec.name := nameVersions];
      return Ok(());
    }

    method Get(name: string) returns (r: Result<Spec, StoreError>)
      ensures r == match ReadLatest(Contents(), name) case Some(spec) => Ok(spec) case None => Err(NotFound)
    {
      if name !in recipes { return Err(NotFound); }
      return Ok(recipes[name]);
    }

    method GetVersion(name: string, version: Int64) returns (r: Result<Spec, StoreError>)
      ensures r == match ReadVersion(Contents(), name, version) case Some(spec) => Ok(spec) case None => Err(NotFound)
    {
      if name !in versions { return Err(NotFound); }
      var key := VersionKey(version);
      if key !in versions[name] { return Err(NotFound); }
      return Ok(versions[name][key].spec);
    }

    method ListVersions(name: string) returns (r: Result<seq<VersionInfo>, StoreError>)
      requires Valid()
      ensures r == if name in versions then Ok(ReadVersions(versions[name])) else Err(NotFound)
    {
      if name !in versions { return Err(NotFound); }
      var nameVersions := versions[name];
      var keys := InKeyOrder(nameVersions.Keys);
      var out: seq<VersionInfo> := [];
      for i := 0 to |keys|
        invariant out == VersionInfos(nameVersions, keys, i)
      {
        var k := keys[i];
        out := out + [VersionInfo(VersionFromKey(k), nameVersions[k].updatedAt)];
      }
      return Ok(out);
    }

    method Delete(name: string, commits: bool) returns (r: Result<(), StoreError>)
      requires Valid()
      modifies this
      ensures Valid()
      ensures r == if commits then Ok(()) else Err(Aborted)
      ensures Contents() == if commits then AfterUpdate(old(Contents()), DeleteUpdate(name)) else old(Contents())
    {
      if !commits { return Err(Aborted); }
      var after := AfterDelete(Db(recipes, versions), name);
      recipes, versions := after.recipes, after.versions;
      return Ok(());
    }

    method List() returns (names: seq<string>)
      ensures ListsInOrder(names, recipes.Keys)
    {
      names := InKeyOrder(recipes.Keys);
    }

    /** Two transactions: read the version, then put it back. `between` is what other callers commit
        after the first and before the second. */
    method Rollback(name: string, version: Int64, between: seq<Update>, now: int, commits: bool)
      returns (r: Result<(), StoreError>)
      requires Valid()
      modifies this
      ensures Valid()
      ensures match ReadVersion(old(Contents()), name, version)
              case None => r == Err(NotFound) && Contents() == old(Contents())
              case Some(spec) =>
                var others := AfterUpdates(old(Contents()), between);
                && r == (if spec.name == "" then Err(NameRequired) else if !commits then Err(Aborted) else Ok(()))
                && Contents() == if r.Ok? then AfterUpdate(others, PutUpdate(spec, now)) else others
    {
      var read := GetVersion(name, version);
      if read.Err? { return Err(read.error); }
      Interleave(between);
      r := Put(read.value, now, commits);
    }

    method Interleave(updates: seq<Update>)
      requires Valid()
      modifies this
      ensures Valid() && Contents() == AfterUpdates(old(Contents()), updates)
    {
      for i := 0 to |updates|
        invariant Valid() && Contents() == AfterUpdates(old(Contents()), updates[..i])
      {
        assert updates[..i + 1][..i] == updates[..i];
        match updates[i] {
          case PutUpdate(spec, now) => var _ := Put(spec, now, true);
          case DeleteUpdate(name) => var _ := Delete(name, true);
        }
      }
      assert updates[..|updates|] == updates;
    }
  }
}
