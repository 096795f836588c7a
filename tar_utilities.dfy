/** The archive reader: lists the NetCDF members of a history tar file and
    extracts one of them. A file on disk is seen only through what the tar
    library reports about it: whether it exists, whether it is a tar archive,
    and the names of its members in archive order. */
module TarUtilities {
  import opened Wrappers

  /** An input path: no file there (`is_tarfile` itself then raises), a file
      that is not a tar archive, or a tar archive with its member names. */
  datatype ArchiveFile = Missing | NotTar | Tar(names: seq<string>)

  datatype ArchiveError = FileNotFound | NotATarFile | MemberNotFound(name: string)

  const NetcdfSuffix: string := ".nc"

  /** Python's `str.endswith`. */
  predicate EndsWith(s: string, suffix: string)
  {
    |suffix| <= |s| && s[|s| - |suffix|..] == suffix
  }

  predicate IsNetcdf(name: string)
  {
    EndsWith(name, NetcdfSuffix)
  }

  /** The NetCDF member names of a name list, in list order. */
  function NcFiles(names: seq<string>): (r: seq<string>)
    ensures forall name :: name in r <==> name in names && IsNetcdf(name)
    ensures |r| <= |names|
  {
    if names == [] then []
    else
      var last := names[|names| - 1];
      NcFiles(names[..|names| - 1]) + (if IsNetcdf(last) then [last] else [])
  }

  /** `xs` is `ys` with some elements dropped, the others kept in order. */
  ghost predicate IsSubsequence(xs: seq<string>, ys: seq<string>)
    decreases |ys|
  {
    || xs == []
    || (&& ys != []
        && ((xs[|xs| - 1] == ys[|ys| - 1] && IsSubsequence(xs[..|xs| - 1], ys[..|ys| - 1]))
            || IsSubsequence(xs, ys[..|ys| - 1])))
  }

  /** The listing drops names but never reorders them. */
  lemma {:induction false} NcFilesIsSubsequence(names: seq<string>)
    ensures IsSubsequence(NcFiles(names), names)
    decreases |names|
  {
    if names != [] {
      var init, last := names[..|names| - 1], names[|names| - 1];
      assert names == init + [last];
      NcFilesIsSubsequence(init);
      var xs := NcFiles(names);
      if IsNetcdf(last) {
        assert xs == NcFiles(init) + [last];
        assert xs[..|xs| - 1] == NcFiles(init) && xs[|xs| - 1] == last;
      } else {
        assert xs == NcFiles(init);
      }
    }
  }

  /** The listing of a concatenation is the concatenation of the listings;
      with `NcFilesSingle` this fixes the listing entry by entry. */
  lemma {:induction false} NcFilesAppend(xs: seq<string>, ys: seq<string>)
    ensures NcFiles(xs + ys) == NcFiles(xs) + NcFiles(ys)
    decreases |ys|
  {
    if ys == [] {
      assert xs + ys == xs;
    } else {
      var init, last := ys[..|ys| - 1], ys[|ys| - 1];
      var tail := if IsNetcdf(last) then [last] else [];
      assert (xs + ys)[..|xs + ys| - 1] == xs + init && (xs + ys)[|xs + ys| - 1] == last;
      assert NcFiles(xs + ys) == NcFiles(xs + init) + tail;
      NcFilesAppend(xs, init);
    }
  }

  /** A single member is listed exactly when it ends in `.nc`. */
  lemma NcFilesSingle(name: string)
    ensures NcFiles([name]) == if IsNetcdf(name) then [name] else []
  {
  }

  /** A `.nc` member is listed as many times as the archive holds it, any
      other member never. */
  lemma {:induction false} NcFilesCount(names: seq<string>, name: string)
    ensures multiset(NcFiles(names))[name] == if IsNetcdf(name) then multiset(names)[name] else 0
    decreases |names|
  {
    if names != [] {
      var init, last := names[..|names| - 1], names[|names| - 1];
      assert names == init + [last];
      NcFilesCount(init, name);
      assert multiset(names) == multiset(init) + multiset{last};
    }
  }

  /** A member whose name ends in `.nc.tar` is a nested archive, not a
      NetCDF file, and is not listed. */
  lemma NestedArchiveExcluded(names: seq<string>, name: string)
    requires EndsWith(name, ".nc.tar")
    ensures name !in NcFiles(names)
  {
    assert name[|name| - 1] == 'r';
  }

  /** A history archive holding a NetCDF file, a nested archive and a text
      file lists the NetCDF file alone. */
  lemma ListingExample()
    ensures NcFiles(["19000101.ocean_month.nc", "19000101.ice_daily.nc.tar", "README.txt"])
            == ["19000101.ocean_month.nc"]
  {
  }

  /** `tarfile.is_tarfile` followed by the listing loop. */
  method ListFilesArchive(archive: ArchiveFile) returns (r: Result<seq<string>, ArchiveError>)
    ensures archive.Missing? ==> r == Failure(FileNotFound)
    ensures archive.NotTar? ==> r == Failure(NotATarFile)
    ensures archive.Tar? ==> r == Success(NcFiles(archive.names))
  {
    if archive.Missing? {
      return Failure(FileNotFound);
    }
    if archive.NotTar? {
      return Failure(NotATarFile);
    }
    var allfiles := archive.names;
    var ncfiles := [];
    for i := 0 to |allfiles|
      invariant ncfiles == NcFiles(allfiles[..i])
    {
      var f := allfiles[i];
      assert allfiles[..i + 1][..i] == allfiles[..i];
      if IsNetcdf(f) {
        ncfiles := ncfiles + [f];
      }
    }
    assert allfiles[..|allfiles|] == allfiles;
    r := Success(ncfiles);
  }

  /** Python's `s.rstrip('/')`: the longest prefix of `s` that does not end
      in a slash, where only slashes were removed. */
  function RStripSlash(s: string): (r: string)
    ensures r <= s
    ensures r == [] || r[|r| - 1] != '/'
    ensures forall k :: |r| <= k < |s| ==> s[k] == '/'
  {
    if s != [] && s[|s| - 1] == '/' then RStripSlash(s[..|s| - 1]) else s
  }

  /** `tarfile.is_tarfile` followed by the extraction of one named member.
      The library looks the member up under the name with its trailing
      slashes removed, and refuses a name that no member has. */
  function ExtractNcfileFromArchive(archive: ArchiveFile, ncfile: string): (r: Outcome<ArchiveError>)
    ensures r == Pass <==> archive.Tar? && RStripSlash(ncfile) in archive.names
    ensures archive.Missing? ==> r == Fail(FileNotFound)
    ensures archive.NotTar? ==> r == Fail(NotATarFile)
  {
    if archive.Missing? then Fail(FileNotFound)
    else if archive.NotTar? then Fail(NotATarFile)
    else if RStripSlash(ncfile) !in archive.names then Fail(MemberNotFound(ncfile))
    else Pass
  }

  /** Every name the listing returns can be extracted from the same archive:
      a `.nc` name has no trailing slash to strip. */
  lemma ListedFilesExtract(archive: ArchiveFile, ncfile: string)
    requires archive.Tar? && ncfile in NcFiles(archive.names)
    ensures ExtractNcfileFromArchive(archive, ncfile) == Pass
  {
  }

  /** A member may be named with trailing slashes: `x.nc/` extracts `x.nc`. */
  lemma TrailingSlashExtracts()
    ensures ExtractNcfileFromArchive(Tar(["x.nc"]), "x.nc/") == Pass
  {
    assert RStripSlash("x.nc/") == RStripSlash("x.nc") == "x.nc";
  }
}
