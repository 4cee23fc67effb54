# autorandr detection and matching, modelled in Dafny

autorandr picks a monitor layout for an X display. It sorts every output the X
server reports into three groups. **Active** outputs drive a monitor. **Connected**
outputs have a monitor attached but are not in use. **Disconnected** outputs have
no identification data. Each monitor is identified by a fingerprint, the lowercase
hex encoding of its EDID block. A profile is available when every fingerprint it
requires is attached. The store lists profiles in order of preference, which is the
order of their names.

This project models that core on values and in imperative Dafny. The X server and
the file system are replaced by parameters:

- `Detect` takes the two X query results as sequences of `Monitor` values. These
  are the outputs of the driven monitors, already flattened, and all outputs.
- A profile or monitor file is represented by its file name together with the
  outcome of reading and deserialising it.
- `Load` takes one `DirEntry` per directory entry: either unreadable, or its file
  name with the outcome of reading and deserialising it. It loads each one with
  `LoadProfile`, as `Config::load` does through `TryFrom<DirEntry>`.

Modules:

- `Wrappers`: `Option` and `Result`.
- `Errors`: the loaders' errors.
- `Strings`: Rust's `String` order.
- `Hex`: the fingerprint encoding, base16 as in section 8 of RFC 4648 with the
  lowercase alphabet, plus its inverse.
- `OrderedMaps`: `BTreeMap` key order and the argument-list flattening.
- `Paths`: `Path::extension` and `Path::file_stem` applied to a file name, and the
  `yaml`/`yml` test.
- `XRandr`: a live output record and its fingerprint.
- `Output`, `Monitor`: the display records of `src/output.rs` and `src/monitor.rs`.
- `Config`: profiles, `init_set`, naming, ordering and `Config::load`.
- `Manager`: the `Manager` class with `from` and `detect`.

Notes on the code as written:

- `src/errors.rs` at this revision declares neither `UnrecognizedProfileConfigFile`
  nor `CannotDetermineConfigDir`, although `src/config.rs` and `src/monitor.rs`
  use them. The model follows the loaders and gives `Errors.Error` the variants
  they use.
- Rust's `sort` is stable. The model sorts with an in-place insertion sort, which
  is stable too. Its result is proved to be sorted by name, to be a permutation of
  the loaded profiles, and to keep profiles of equal name in directory order.
- `Ord for Profile` compares names only. `PartialEq` is derived over all fields,
  so two different profiles can compare `Equal` (`Config.CompareOnlyByName`).
- An active output that has no fingerprint is left out of `active`. If `all_outputs`
  reports the same output, it lands in `disconnected`, because it has a name and no
  fingerprint. The model states what holds: `active` never holds a monitor without
  a fingerprint, and a nameless output lands in neither `connected` nor
  `disconnected`. The first loop tests no name, so a nameless active output with a
  fingerprint is stored in `active`. Live outputs are always named, so on real X
  input no collection holds a nameless monitor (`Manager.LiveActiveOutputsNamed`).
- The topology is held in mutable fields of `Manager`. `detect` resets those
  fields and refills them; it does not return a fresh value. The model keeps that
  shape as a class. `Detect`'s contract never mentions the old field values, so the
  result depends only on the two query results.
- Strings are compared character by character. Rust compares UTF-8 bytes, and
  that order is the same as code-point order.

## Model

| member | source | states |
|---|---|---|
| `Hex.Encode` | src/output.rs:34 | the fingerprint of an EDID block `v` has length `2·|v|`, uses only `0-9a-f`, and gives each byte as two nibble digits, high nibble first |
| `Hex.DecodeEncode` | src/monitor.rs:48 | decoding a fingerprint gives back the EDID block it was made from |
| `Hex.EncodeDecode` | src/monitor.rs:48 | every decodable string is the fingerprint of the block it decodes to |
| `Hex.EncodeInjective` | src/output.rs:34 | distinct EDID blocks never share a fingerprint |
| `Hex.DecodeTotalOnHex` | src/output.rs:34 | every even-length lowercase hex string decodes, so fingerprints are exactly those strings |
| `Strings.Cmp` | src/config.rs:75 | `String::cmp` gives `Equal` exactly on equal names, and `Less`/`Greater` exactly by strict lexicographic order |
| `Strings.LexLeqAntisymmetric` | src/config.rs:75 | two names each no later than the other are equal |
| `Strings.LexLeqTransitive` | src/config.rs:75 | the name order is transitive |
| `Strings.LexLeqTotal` | src/config.rs:75 | any two names are comparable |
| `OrderedMaps.SortedSet` | src/output.rs:20-21 | `BTreeMap` iteration visits every key exactly once, in strictly ascending order |
| `OrderedMaps.Flatten` | src/output.rs:19-25 | the flattened argument list has `2·n` entries; position `2i` holds the `i`-th smallest key and `2i+1` its value |
| `OrderedMaps.FlattenKeys` | src/monitor.rs:29-36 | the even positions of the argument list are strictly ascending and are exactly the map's keys |
| `Paths.Extension` | src/config.rs:54 | `Path::extension` of a file name: when present it is the dot-free text after the last `.`, and at least one character precedes that `.`; it is absent exactly for `..`, for names without a `.`, and for names whose only `.` is the first character |
| `Paths.IsYamlFile` | src/config.rs:54-55 | a file is read as YAML exactly when its name is a non-empty stem followed by `.yaml` or `.yml`, compared case-sensitively |
| `Paths.ExtensionIs` | src/monitor.rs:63-64 | a non-empty dot-free extension is the extension of exactly the names that end with `.` and it after a non-empty stem |
| `Paths.ExtensionSplits` | src/config.rs:54-55 | a file name with an extension is its non-empty stem, a `.`, and an extension without a `.` |
| `Paths.FileStem` | src/config.rs:63 | only "", "." and ".." have no stem; any other name has a non-empty stem that is a prefix of it, and a name without an extension is its own stem |
| `Paths.JoinSplits` | src/config.rs:63 | joining a non-empty stem and a dot-free extension splits back into the same two parts, unless the joined name is `..`, which has no extension |
| `XRandr.Fingerprint` | src/output.rs:32-38 | a live output has a fingerprint exactly when its `EDID` property is present and holds an EDID value, and that fingerprint is the hex encoding of the block; src/monitor.rs:46-52 is the same match |
| `XRandr.FingerprintInjective` | src/output.rs:32-38 | two live outputs share a fingerprint only when their EDID blocks are identical |
| `XRandr.FingerprintShape` | src/monitor.rs:46-52 | a live output's fingerprint has twice as many characters as its EDID block and uses lowercase hex digits only |
| `Output.GetArgs` | src/output.rs:19-25 | length is twice the number of arguments; each key is followed by its value, keys ascending |
| `Output.FromXRandr` | src/output.rs:28-41 | a converted output is named after the live output; it has a fingerprint exactly when `EDID` holds an EDID block, and that fingerprint is the block's hex; it has no arguments, so `get_args` is empty |
| `Monitor.GetArgs` | src/monitor.rs:29-36 | length is twice the number of arguments; each key is followed by its value, keys ascending |
| `Monitor.FromXOutput` | src/monitor.rs:39-56 | a converted monitor has kind `Unknown` and is named after the live output; its fingerprint is as for `Output.FromXRandr`; it has no arguments, so `get_args` is empty |
| `Monitor.LoadMonitor` | src/monitor.rs:58-74 | a file whose extension is not `yaml`/`yml` is rejected with `UnrecognizedProfileConfigFile`; any other file yields what reading and parsing it yield |
| `Config.IsAvailable` | src/config.rs:28-31 | true exactly when every fingerprint the profile requires is available |
| `Config.EmptyProfileAlwaysAvailable` | src/config.rs:30 | a profile requiring no fingerprint is available for every set, the empty set included |
| `Config.IsAvailableMonotone` | src/config.rs:30 | an available profile stays available when more fingerprints become available |
| `Config.InitSet` | src/config.rs:40-46 | the profile's set gains exactly the fingerprints declared by its slots; slots without one add nothing; nothing else changes |
| `Config.ChooseName` | src/config.rs:61-65 | the name is `profile_name` when present, otherwise the file stem, otherwise the empty default, which only a name without a stem (never a YAML file) reaches |
| `Config.LoadProfile` | src/config.rs:52-70 | a non-YAML file is rejected with `UnrecognizedProfileConfigFile`; a read or parse failure is passed on; a parsed profile keeps its slots and declared name, requires exactly its slots' fingerprints, and is named by `ChooseName`; it succeeds exactly when `Loaded`, the function form of `entry.try_into()` at src/config.rs:109, gives a profile, and then returns that profile |
| `Config.LoadedNameIsStem` | src/config.rs:61-65 | a loaded YAML profile without `profile_name` is named by its file stem, which is non-empty |
| `Config.Compare` | src/config.rs:73-77 | profiles compare by name: `Equal` exactly on equal names, otherwise by the name order |
| `Config.CompareOnlyByName` | src/config.rs:74-76 | the comparison ignores every field but the name |
| `Config.CompareIsOrder` | src/config.rs:73-83 | the comparison is antisymmetric and transitive |
| `Config.InsertLast` | src/config.rs:121 | one insertion step of the in-place sort leaves the prefix equal to `Insert` of the old prefix and the old element, and the rest of the array unchanged |
| `Config.InsertAt` | src/config.rs:121 | `Insert` places a profile after the last one that does not compare greater than it and before the ones that all compare greater |
| `Config.SortProfiles` | src/config.rs:121 | the in-place sort leaves the array equal to the stable sort of its old contents |
| `Config.SortByNameSorted` | src/config.rs:121 | the sorted profiles are in ascending name order |
| `Config.SortByNamePermutes` | src/config.rs:121 | sorting is a permutation of the loaded profiles |
| `Config.SortByNameStable` | src/config.rs:121 | sorting is stable: for every name, the profiles carrying it keep their relative order |
| `Config.KeptMembers` | src/config.rs:104-118 | a profile is kept exactly when some entry loaded as it; failed entries are dropped |
| `Config.LoadEntries` | src/config.rs:103-119 | loading every entry with `LoadProfile` keeps exactly the profiles that loaded, in directory order |
| `Config.LoadedProfiles` | src/config.rs:109 | every kept profile is the profile some entry loads as, and requires exactly the fingerprints of its own slots |
| `Config.AvailableBySlots` | src/config.rs:28-46 | for a profile whose set was filled by `init_set`, availability holds exactly when every slot's declared fingerprint is available |
| `Config.Load` | src/config.rs:102-128 | the store holds exactly the profiles the entries load as, as a permutation, sorted by name, with equal names in directory order; each stored profile requires exactly its slots' fingerprints |
| `Manager.Manager.From` | src/manager.rs:16-23 | a new manager holds the given profile store and empty collections |
| `Manager.Manager.Detect` | src/manager.rs:25-58 | the three collections are rebuilt from the two query results only, with the old contents discarded; the store is unchanged; the result is partitioned |
| `Manager.ActiveMapEntries` | src/manager.rs:32-39 | every active entry `k ↦ m` has `m.edid == Some(k)`, and the keys are exactly the fingerprints of the active outputs |
| `Manager.ActiveMapLastWins` | src/manager.rs:36 | the monitor stored under a fingerprint is the last active output carrying it |
| `Manager.ConnectedMapEntries` | src/manager.rs:41-49 | every connected entry `k ↦ m` is named and has `m.edid == Some(k)`; the keys are the fingerprints of named outputs that are not active, so they are disjoint from `active` |
| `Manager.DisconnectedMembers` | src/manager.rs:50-52 | an output is disconnected exactly when it is reported, named and has no fingerprint |
| `Manager.DisconnectedAppend` | src/manager.rs:41-55 | `disconnected` follows the order in which outputs are reported |
| `Manager.DetectPartitions` | src/manager.rs:28-55 | for any query results, keys match fingerprints, `active` and `connected` are disjoint, connected monitors are named, and disconnected monitors are named and have no fingerprint |
| `Manager.NamelessNowhere` | src/manager.rs:53 | an output without a name appears in neither `connected` nor `disconnected` |
| `Manager.LiveOutputsNeverSkipped` | src/manager.rs:41-53 | a converted live output is always named (src/monitor.rs:45), so the nameless branch never fires for it: its fingerprint, when it has one, is a key of `active` or `connected`, and it is disconnected exactly when it has none |
| `Manager.LiveActiveOutputsNamed` | src/manager.rs:32-37 | every monitor the first loop stores in `active` from live outputs is named, because conversion always sets the name (src/monitor.rs:45) |

## Left out

- Reading the profile directory, opening and reading files, `config_dir`, `create_dir_all` and YAML deserialisation are file I/O and a foreign parser. Each entry is modelled as its file name plus the outcome of reading and parsing it.
- The X server connection (`XHandle::open`, `monitors()`, `all_outputs()`, `src/xhandle.rs`) is a client of another library. `Detect` receives its results as parameters. When a query fails, the Rust code returns the error and drops the manager, so no state is left behind to model.
- The monitor → outputs nesting of `handle.monitors()` is taken already flattened. `detect` flattens it itself with two nested loops (src/manager.rs:32-33); `Detect` receives the outputs of all monitors in that order as one sequence.
- `Manager::list`, `Display for Profile` and the logging calls only format and log.
- `src/main.rs` is command-line parsing and logger setup.
- `reconcile` and mirror mode are called from `src/main.rs:13`, but their definitions are not part of this model. Profile selection is therefore modelled only as far as `IsAvailable` and the sorted store go.
- `HashMap`/`HashSet` iteration order is not modelled; they are Dafny `map`/`set`.
- The `PropertyValue` kinds other than EDID are collapsed into one `Other` value, because the code only tells EDID apart from the rest.
- `UnrecognizedProfileConfigFile` carries the entry's whole path in Rust (`de.path()`). The model sees only file names, so the error carries the file name.
- Strings that are not valid UTF-8 are not modelled, so the `to_str().unwrap()` panic on a non-UTF-8 file stem is left out.
