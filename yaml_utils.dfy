/** The provenance ledger: the side-car record `{storepath}/{varname}.yml` that
    says how a per-variable store was built (source and store paths, the eight
    build options, the variable name) and which contributions (`files`) went
    into it, so that the store can be rebuilt. */
module YamlUtils {
  import opened Wrappers

  /** The `path` entry of a build record. */
  datatype BuildPath = BuildPath(history: string, store: string)

  /** The `options` entry of a build record, one field per key. `chunks` is a
      dictionary from dimension name to chunk size, or None when not given. */
  datatype BuildOptions = BuildOptions(
    storetype: string,
    consolidated: bool,
    timedim: string,
    chunks: Option<map<string, int>>,
    grid: string,
    tag: string,
    domain: string,
    site: string)

  /** A build record; `C` is the type of one contribution in `files`, which
      the ledger only ever compares for equality. */
  datatype BuildRecord<C> = BuildRecord(path: BuildPath, options: BuildOptions, varname: string, files: seq<C>)

  /** The three identity checks of an update, in the order they are made. */
  datatype LedgerError = PathMismatch | OptionsMismatch | VarnameMismatch

  /** The fields of a record that must never change once it is on disk. */
  predicate SameIdentity<C>(stored: BuildRecord<C>, update: BuildRecord<C>)
  {
    stored.path == update.path && stored.options == update.options && stored.varname == update.varname
  }

  predicate NoDuplicates<C(==)>(s: seq<C>)
  {
    forall i, j :: 0 <= i < j < |s| ==> s[i] != s[j]
  }

  /** Builds the record describing one store build; every argument lands
      unchanged under its own key. */
  function CreateBuildHistory<C>(historydir: string, storedir: string, storetype: string, consolidated: bool,
                                 timedim: string, chunks: Option<map<string, int>>, grid: string, tag: string,
                                 domain: string, site: string, varname: string, files: seq<C>): (build: BuildRecord<C>)
    ensures build.path.history == historydir && build.path.store == storedir
    ensures build.options.storetype == storetype && build.options.consolidated == consolidated
    ensures build.options.timedim == timedim && build.options.chunks == chunks
    ensures build.options.grid == grid && build.options.tag == tag
    ensures build.options.domain == domain && build.options.site == site
    ensures build.varname == varname && build.files == files
  {
    var path := BuildPath(historydir, storedir);
    var options := BuildOptions(storetype, consolidated, timedim, chunks, grid, tag, domain, site);
    BuildRecord(path, options, varname, files)
  }

  /** The location of the side-car record of variable `varname` in the store
      directory `storepath`. */
  function HistoryPath(storepath: string, varname: string): (p: string)
    ensures |p| == |storepath| + 1 + |varname| + 4
    ensures p[..|storepath| + 1] == storepath + "/" && p[|p| - 4..] == ".yml"
  {
    storepath + "/" + varname + ".yml"
  }

  /** Within one store directory, different variables have different side-car
      records. */
  lemma HistoryPathInjective(storepath: string, v1: string, v2: string)
    requires HistoryPath(storepath, v1) == HistoryPath(storepath, v2)
    ensures v1 == v2
  {
    var p1, p2 := HistoryPath(storepath, v1), HistoryPath(storepath, v2);
    assert p1[|storepath| + 1 .. |p1| - 4] == v1;
    assert p2[|storepath| + 1 .. |p2| - 4] == v2;
  }

  /** Appends, in order, each entry of `incoming` that is not yet in the list
      built so far; this is the loop over the update's `files`. */
  function AppendMissing<C(==)>(files: seq<C>, incoming: seq<C>): (r: seq<C>)
    ensures files <= r
    ensures |r| <= |files| + |incoming|
    decreases |incoming|
  {
    if incoming == [] then files
    else
      var kv := incoming[0];
      AppendMissing(if kv in files then files else files + [kv], incoming[1..])
  }

  /** The merge rule of the ledger: with no record on disk, or when asked to
      overwrite, the update becomes the record; otherwise the identity fields
      must agree, and the missing contributions are appended. */
  function Merge<C(==)>(stored: Option<BuildRecord<C>>, update: BuildRecord<C>, overwrite: bool)
    : (r: Result<BuildRecord<C>, LedgerError>)
    ensures stored.None? || overwrite ==> r == Success(update)
    ensures stored.Some? && !overwrite ==> (r.Success? <==> SameIdentity(stored.value, update))
    ensures stored.Some? && !overwrite ==>
              && (stored.value.path != update.path ==> r == Failure(PathMismatch))
              && (stored.value.path == update.path && stored.value.options != update.options ==> r == Failure(OptionsMismatch))
              && ((stored.value.path == update.path && stored.value.options == update.options &&
                   stored.value.varname != update.varname) ==> r == Failure(VarnameMismatch))
  {
    if stored.None? || overwrite then Success(update)
    else
      var history := stored.value;
      if history.path != update.path then Failure(PathMismatch)
      else if history.options != update.options then Failure(OptionsMismatch)
      else if history.varname != update.varname then Failure(VarnameMismatch)
      else Success(history.(files := AppendMissing(history.files, update.files)))
  }

  /** The loop of the merge: the existing list is a prefix of the result, and
      every entry after it comes from `incoming` and was absent when it was
      appended. */
  lemma {:induction false} AppendMissingExtends<C>(files: seq<C>, incoming: seq<C>)
    ensures files <= AppendMissing(files, incoming)
    ensures var r := AppendMissing(files, incoming);
            forall k :: |files| <= k < |r| ==> r[k] in incoming && r[k] !in r[..k]
    decreases |incoming|
  {
    if incoming != [] {
      var kv := incoming[0];
      var next := if kv in files then files else files + [kv];
      AppendMissingExtends(next, incoming[1..]);
      var r := AppendMissing(files, incoming);
      assert r == AppendMissing(next, incoming[1..]);
      forall k | |files| <= k < |r|
        ensures r[k] in incoming && r[k] !in r[..k]
      {
        if k < |next| {
          assert next == files + [kv] && k == |files|;
          assert r[..k] == files;
          assert r[k] == next[k] == kv;
        } else {
          assert r[k] in incoming[1..];
        }
      }
    }
  }

  /** The merged list holds exactly the entries of the existing list and of the
      update. */
  lemma {:induction false} AppendMissingMembers<C>(files: seq<C>, incoming: seq<C>)
    ensures forall x :: x in AppendMissing(files, incoming) <==> x in files || x in incoming
    decreases |incoming|
  {
    if incoming != [] {
      var kv := incoming[0];
      var next := if kv in files then files else files + [kv];
      AppendMissingMembers(next, incoming[1..]);
      assert incoming == [kv] + incoming[1..];
      forall x
        ensures x in AppendMissing(files, incoming) <==> x in files || x in incoming
      {
        assert x in next <==> x in files || x == kv;
      }
    }
  }

  /** Merging entries that are all present already changes nothing. */
  lemma {:induction false} AppendMissingPresent<C>(files: seq<C>, incoming: seq<C>)
    requires forall x :: x in incoming ==> x in files
    ensures AppendMissing(files, incoming) == files
    decreases |incoming|
  {
    if incoming != [] {
      assert incoming[0] in incoming;
      AppendMissingPresent(files, incoming[1..]);
    }
  }

  /** A duplicate-free list stays duplicate-free. */
  lemma AppendMissingNoDuplicates<C>(files: seq<C>, incoming: seq<C>)
    requires NoDuplicates(files)
    ensures NoDuplicates(AppendMissing(files, incoming))
  {
    var r := AppendMissing(files, incoming);
    AppendMissingExtends(files, incoming);
    forall i, j | 0 <= i < j < |r|
      ensures r[i] != r[j]
    {
      if j < |files| {
        assert r[i] == files[i] && r[j] == files[j];
      } else {
        assert r[i] in r[..j];
      }
    }
  }

  /** On a merge into an existing record, identity is unchanged and only
      `files` grows: the old list is a prefix of the new one, and each entry
      after it is from the update and was absent when it was appended. */
  lemma MergeKeepsIdentity<C>(stored: BuildRecord<C>, update: BuildRecord<C>)
    requires Merge(Some(stored), update, false).Success?
    ensures var r := Merge(Some(stored), update, false).value;
            && r.path == stored.path && r.options == stored.options && r.varname == stored.varname
            && stored.files <= r.files
            && forall k :: |stored.files| <= k < |r.files| ==> r.files[k] in update.files && r.files[k] !in r.files[..k]
  {
    AppendMissingExtends(stored.files, update.files);
  }

  /** After a successful update every contribution of the update is recorded,
      and nothing but the old and the new contributions is. */
  lemma MergeCoversUpdate<C>(stored: Option<BuildRecord<C>>, update: BuildRecord<C>, overwrite: bool)
    requires Merge(stored, update, overwrite).Success?
    ensures var r := Merge(stored, update, overwrite).value;
            forall x :: x in r.files <==> x in update.files || (stored.Some? && !overwrite && x in stored.value.files)
  {
    if stored.Some? && !overwrite {
      AppendMissingMembers(stored.value.files, update.files);
    }
  }

  /** Merging never introduces a duplicate contribution. */
  lemma MergeNoDuplicates<C>(stored: BuildRecord<C>, update: BuildRecord<C>)
    requires NoDuplicates(stored.files)
    requires Merge(Some(stored), update, false).Success?
    ensures NoDuplicates(Merge(Some(stored), update, false).value.files)
  {
    AppendMissingNoDuplicates(stored.files, update.files);
  }

  /** Applying the same update a second time leaves the record as it is: a
      rebuild keeps the history intact. */
  lemma MergeIdempotent<C>(stored: Option<BuildRecord<C>>, update: BuildRecord<C>, overwrite: bool)
    requires Merge(stored, update, overwrite).Success?
    ensures var r := Merge(stored, update, overwrite).value;
            Merge(Some(r), update, false) == Success(r)
  {
    var r := Merge(stored, update, overwrite).value;
    MergeCoversUpdate(stored, update, overwrite);
    AppendMissingPresent(r.files, update.files);
  }

  /** A ledger fed contributions `a` then `b` records both, in that order, and
      feeding `a` again does not duplicate it. */
  lemma ProvenanceAccumulates<C>(build: BuildRecord<C>, a: C, b: C)
    requires a != b
    ensures var first := Merge(None, build.(files := [a]), false);
            && first.Success?
            && var second := Merge(Some(first.value), build.(files := [b]), false);
            && second.Success? && second.value.files == [a, b]
            && Merge(Some(second.value), build.(files := [a]), false) == second
  {
    var first := build.(files := [a]);
    assert AppendMissing([a], [b]) == AppendMissing([a, b], []);
    var second := build.(files := [a, b]);
    AppendMissingPresent(second.files, [a]);
  }

  /** Two records built from the same arguments (up to their contributions)
      are merge-compatible, and a change in any one argument is refused. */
  lemma RebuildAcceptedIffSameArguments<C>(
    historydir: string, storedir: string, storetype: string, consolidated: bool,
    timedim: string, chunks: Option<map<string, int>>, grid: string, tag: string,
    domain: string, site: string, varname: string, files: seq<C>,
    historydir': string, storedir': string, storetype': string, consolidated': bool,
    timedim': string, chunks': Option<map<string, int>>, grid': string, tag': string,
    domain': string, site': string, varname': string, files': seq<C>)
    ensures var stored := CreateBuildHistory(historydir, storedir, storetype, consolidated, timedim, chunks,
                                             grid, tag, domain, site, varname, files);
            var update := CreateBuildHistory(historydir', storedir', storetype', consolidated', timedim', chunks',
                                             grid', tag', domain', site', varname', files');
            Merge(Some(stored), update, false).Success? <==>
              && historydir == historydir' && storedir == storedir' && storetype == storetype'
              && consolidated == consolidated' && timedim == timedim' && chunks == chunks'
              && grid == grid' && tag == tag' && domain == domain' && site == site' && varname == varname'
  {
  }

  /** The body of the update: identity checks, then the loop that appends each
      missing contribution to the loaded list. */
  method MergeHistory<C(==)>(stored: Option<BuildRecord<C>>, update: BuildRecord<C>, overwrite: bool)
    returns (r: Result<BuildRecord<C>, LedgerError>)
    ensures r == Merge(stored, update, overwrite)
  {
    if stored.Some? && !overwrite {
      var history := stored.value;
      if history.path != update.path {
        return Failure(PathMismatch);
      }
      if history.options != update.options {
        return Failure(OptionsMismatch);
      }
      if history.varname != update.varname {
        return Failure(VarnameMismatch);
      }
      var files := history.files;
      for i := 0 to |update.files|
        invariant history.files <= files
        invariant AppendMissing(files, update.files[i..]) == AppendMissing(history.files, update.files)
      {
        var kv := update.files[i];
        assert update.files[i..][1..] == update.files[i + 1..];
        if kv !in files {
          files := files + [kv];
        }
      }
      r := Success(history.(files := files));
    } else {
      r := Success(update);
    }
  }

  /** The side-car records present on disk, by path. */
  class Ledger<C(==)> {
    var records: map<string, BuildRecord<C>>

    constructor (records: map<string, BuildRecord<C>>)
      ensures this.records == records
    {
      this.records := records;
    }

    /** What `os.path.exists` followed by `yaml.load` yields for `path`. */
    function Stored(path: string): (r: Option<BuildRecord<C>>)
      reads this
      ensures r.Some? <==> path in records
      ensures r.Some? ==> r.value == records[path]
    {
      if path in records then Some(records[path]) else None
    }

    /** Creates or updates the record of `varname` in `storepath`. A failed
        identity check leaves the disk as it was; otherwise exactly one record
        is (re)written. */
    method UpdateYaml(storepath: string, varname: string, update: BuildRecord<C>, overwrite: bool)
      returns (outcome: Outcome<LedgerError>)
      modifies this
      ensures var path := HistoryPath(storepath, varname);
              match Merge(old(Stored(path)), update, overwrite)
              case Success(rec) => outcome == Pass && records == old(records)[path := rec]
              case Failure(e) => outcome == Fail(e) && records == old(records)
    ensures var path := HistoryPath(storepath, varname);
            && (outcome == Pass ==> Stored(path) == Some(Merge(old(Stored(path)), update, overwrite).value))
            && (forall p :: p != path ==> Stored(p) == old(Stored(p)))
            && (outcome.Fail? ==> Stored(path) == old(Stored(path)))
    {
      var path := HistoryPath(storepath, varname);
      var merged := MergeHistory(Stored(path), update, overwrite);
      match merged
      case Success(rec) =>
        records := records[path := rec];
        outcome := Pass;
      case Failure(e) =>
        outcome := Fail(e);
    }
  }
}
