# history2CMIParchive: provenance ledger and archive listing

This project models two small parts of history2CMIParchive, the tool that converts
climate-model history output (NetCDF files bundled in tar archives) into
per-variable zarr stores.

- **The provenance ledger** (`history2CMIParchive/yaml_utils.py`). Every store has a side-car
  record, `{storepath}/{varname}.yml`. It holds the build path (history and store
  directories), the eight build options, the variable name, and the list of
  contributions (`files`) that went into the store. `create_build_history` builds
  such a record. `update_yaml` writes it in one of two ways:
  - It creates the record, or replaces it when `overwrite` is set.
  - Otherwise it checks that `path`, `options` and `varname` are unchanged, then
    appends each contribution not already listed.

  Module `YamlUtils`:
  - `Merge` is the merge rule as a function.
  - `MergeHistory` is the update's loop as a method, proved equal to `Merge`.
  - `Ledger` is a class. Its `records` map from path to record stands for the
    side-car files on disk.
  - The lemmas prove that identity is preserved, that the list only grows, that
    no duplicates are added, that re-applying an update changes nothing, and that
    contributions accumulate.
- **The archive reader** (`history2CMIParchive/tar_utilities.py`). `list_files_archive` returns
  the member names ending in `.nc`, in archive order. `extract_ncfile_from_archive`
  extracts one member. Both first assert that the file is a tar archive. In module
  `TarUtilities`, an input path is `Missing`, `NotTar` or `Tar(names)`. The listing loop is
  proved equal to the filter `NcFiles`. The filter is proved to keep each `.nc` name
  as many times as the archive holds it, to drop every other name, and to keep archive
  order. It also distributes over concatenation, which fixes it entry by entry.

Contributions are a type parameter `C`: the ledger only compares them for
equality (`kv not in store_history['files']`). The assertion failures become
`Failure`/`Fail` values carrying which check failed. They are checked in the
source's order: path, then options, then varname.

## Model

| member | source | states |
|---|---|---|
| `YamlUtils.CreateBuildHistory` | history2CMIParchive/yaml_utils.py:5-19 | each of the twelve arguments is stored unchanged under its own key: the two directories under `path`, the eight options under `options`, plus `varname` and `files` |
| `YamlUtils.RebuildAcceptedIffSameArguments` | history2CMIParchive/yaml_utils.py:5-45 | a record built by `create_build_history` merges into a stored record built by it if and only if all eleven non-`files` arguments are the same |
| `YamlUtils.HistoryPath` | history2CMIParchive/yaml_utils.py:35 | the side-car path's prefix is the store directory followed by `/`, its suffix is `.yml`, and its length is that of the two plus the variable name |
| `YamlUtils.HistoryPathInjective` | history2CMIParchive/yaml_utils.py:35 | within one store directory, two different variable names never give the same side-car path string |
| `YamlUtils.AppendMissing` | history2CMIParchive/yaml_utils.py:52-54 | the append loop over the update's `files`: the existing list is a prefix of the result, and the loop adds at most one entry per update entry |
| `YamlUtils.Merge` | history2CMIParchive/yaml_utils.py:37-57 | with no stored record, or with `overwrite`, the result is exactly the update; otherwise the merge succeeds if and only if `path`, `options` and `varname` all agree, and a failure names the first check that fails (path, then options, then varname) |
| `YamlUtils.MergeHistory` | history2CMIParchive/yaml_utils.py:37-57 | the identity checks and the `for kv in files` append loop compute exactly `Merge` |
| `YamlUtils.AppendMissingExtends` | history2CMIParchive/yaml_utils.py:52-54 | the append loop keeps the existing list as a prefix, and every entry after that prefix comes from the update and was absent from the list when it was appended |
| `YamlUtils.AppendMissingMembers` | history2CMIParchive/yaml_utils.py:52-54 | after the loop, an entry is in the list if and only if it was in the existing list or in the update |
| `YamlUtils.AppendMissingPresent` | history2CMIParchive/yaml_utils.py:52-54 | when every update entry is already listed, the loop leaves the list unchanged |
| `YamlUtils.AppendMissingNoDuplicates` | history2CMIParchive/yaml_utils.py:52-54 | a list without duplicates stays without duplicates, even when the update itself repeats an entry |
| `YamlUtils.MergeKeepsIdentity` | history2CMIParchive/yaml_utils.py:42-54 | a successful merge into an existing record keeps its `path`, `options` and `varname`; the old `files` is a prefix of the new one, and each appended entry comes from the update and was not yet listed |
| `YamlUtils.MergeCoversUpdate` | history2CMIParchive/yaml_utils.py:52-57 | after a successful update, every contribution of the update is recorded, and nothing besides the update's contributions and (when merging) the stored ones |
| `YamlUtils.MergeNoDuplicates` | history2CMIParchive/yaml_utils.py:52-54 | merging into a record without duplicate contributions gives a record without duplicates |
| `YamlUtils.MergeIdempotent` | history2CMIParchive/yaml_utils.py:47-57 | applying the same update again, without overwrite, to the record just produced yields that record unchanged (a rebuild keeps the history intact) |
| `YamlUtils.ProvenanceAccumulates` | history2CMIParchive/yaml_utils.py:37-57 | contributions `a` then `b` (distinct), fed with the same identity, give `files == [a, b]`; feeding `a` again changes nothing |
| `YamlUtils.Ledger.Stored` | history2CMIParchive/yaml_utils.py:37-39 | stands for `os.path.exists` plus `yaml.load`: it yields a record exactly when the path exists. Its partner is the read-after-write clause of `Ledger.UpdateYaml` |
| `YamlUtils.Ledger.UpdateYaml` | history2CMIParchive/yaml_utils.py:22-62 | the record at `{storepath}/{varname}.yml` is replaced by the `Merge` of what was stored there and the update, and no other record changes; when an identity check fails, nothing is written and the failing check is reported. Read after write: after `Pass`, `Stored` of the side-car path yields the merged record, and `Stored` of every other path yields what it did before |
| `TarUtilities.NcFiles` | history2CMIParchive/tar_utilities.py:8-12 | a name is listed if and only if it is an archive member ending in `.nc`; the listing is no longer than the member list |
| `TarUtilities.NcFilesAppend` | history2CMIParchive/tar_utilities.py:9-12 | the listing of two name lists joined is the two listings joined |
| `TarUtilities.NcFilesSingle` | history2CMIParchive/tar_utilities.py:11-12 | a single name is listed if and only if it ends in `.nc` |
| `TarUtilities.NcFilesCount` | history2CMIParchive/tar_utilities.py:10-12 | a name ending in `.nc` is listed exactly as many times as the archive holds it (repeated members included); any other name is never listed |
| `TarUtilities.NcFilesIsSubsequence` | history2CMIParchive/tar_utilities.py:8-12 | the listing is an order-preserving subsequence of the member names |
| `TarUtilities.NestedArchiveExcluded` | history2CMIParchive/tar_utilities.py:11 | a member whose name ends in `.nc.tar` is never listed |
| `TarUtilities.ListingExample` | history2CMIParchive/tar_utilities.py:10-12 | of `x.nc`, `y.nc.tar` and `README.txt`, only `x.nc` is listed |
| `TarUtilities.ListFilesArchive` | history2CMIParchive/tar_utilities.py:4-14 | a path with no file fails with `FileNotFound`, a file that is not a tar archive with `NotATarFile`; otherwise the loop returns exactly `NcFiles` of the member names |
| `TarUtilities.ExtractNcfileFromArchive` | history2CMIParchive/tar_utilities.py:17-23 | the modelled extraction accepts if and only if the file is a tar archive with a member named like `ncfile` after its trailing slashes are removed; a missing file fails with `FileNotFound`, a non-archive with `NotATarFile` |
| `TarUtilities.TrailingSlashExtracts` | history2CMIParchive/tar_utilities.py:21 | naming member `x.nc` as `x.nc/` still extracts it |
| `TarUtilities.ListedFilesExtract` | history2CMIParchive/tar_utilities.py:4-23 | every name the listing returns is accepted by the modelled extraction rule for the same archive |

## Left out

- YAML serialisation and file I/O (`yaml.load`, `yaml.dump`, `open`). The stored record is modelled as the entry at `HistoryPath(storepath, varname)` in `Ledger.records`, and a write is an assignment to that entry. A stored record in the model is always a well-formed `BuildRecord`. In the source, an empty side-car file loads as `None`, and a mapping without a `path` or `files` key makes the identity check or the append loop raise `TypeError` or `KeyError`. These are not identity failures, and the model does not capture them.
- File-system path aliasing. `Ledger.records` is keyed by the path string. Two spellings of one file, such as `sst` and `SST` on a case-insensitive file system or `x` and `./x`, are two records in the model but one file in the source.
- `os.path.exists` is modelled as the presence of the path in `Ledger.records`, and `Ledger.Stored` stands for `os.path.exists` followed by `yaml.load`.
- `update_yaml` applies the identity check to the record it loads, but it writes the file under its own `varname` argument. The model uses the same rule. It does not add the assumption that `varname` equals `update.varname`, because the source does not check this.
- Tar mechanics (`tarfile.open`, `getnames`, `extract`, `close`). An input path is abstracted to one of three cases: no file there, a file that is not a tar archive, or a tar archive with its member names in order. For a path with no file, `is_tarfile` itself raises `FileNotFoundError`; the model reports this as `FileNotFound`. `ExtractNcfileFromArchive` models only the archive and member checks, not the file it writes under `destination`. The member lookup follows the tar library: it removes trailing slashes from the name, and it fails with `MemberNotFound` when no member has the resulting name.
- ExtractNcfileFromArchive: success is assumed whenever the named member exists. The `destination` argument is not modelled. So the model misses two ways extraction can fail: I/O errors at the destination, which tarfile re-raises at its default error level, and extraction filters that refuse a member, such as a name that resolves outside `destination`. `ListedFilesExtract` holds only under this assumption.
- The zarr store writer, dataset opening, tape retrieval, command-line scripts and examples are not part of this model: they are wrappers over xarray, zarr and shell commands.
- The append-decision algorithm, the filename classifier and the chunk tables are not part of this model: their source is not among the files modelled.
