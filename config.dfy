/**
 * Profiles and the profile store. A profile maps slot names to `Output`s
 * and caches the set of fingerprints those slots require; the store holds
 * every profile that loaded, sorted by name, which is the order of preference.
 */
module Config {
  import opened Wrappers
  import opened Strings
  import opened OrderedMaps
  import Paths
  import opened Errors
  import O = Output

  /**
   * A profile. `name` and `edids` (the `set` field) are not read from the file: they start empty
   * and are filled in by `LoadProfile`.
   */
  datatype Profile = Profile(outputs: map<string, O.Output>, profileName: Option<string>, name: string, edids: set<string>)

  /** What deserialising a profile file yields: its slots and its optional declared name. */
  datatype ProfileFile = ProfileFile(outputs: map<string, O.Output>, profileName: Option<string>)

  /** The profile store. */
  datatype Config = Config(profiles: seq<Profile>)

  /** The fingerprints the slots of a profile declare; slots without one add nothing. */
  function DeclaredEdids(outputs: map<string, O.Output>): set<string>
  {
    set k | k in outputs && outputs[k].edid.Some? :: outputs[k].edid.value
  }

  /** The fingerprints declared by the slots named in `ks`. */
  function DeclaredEdidsOf(outputs: map<string, O.Output>, ks: seq<string>): set<string>
  {
    set k | k in ks && k in outputs && outputs[k].edid.Some? :: outputs[k].edid.value
  }

  /**
   * `is_available`: every fingerprint the profile requires is among the
   * available ones.
   */
  function IsAvailable(p: Profile, available: set<string>): (r: bool)
    ensures r <==> forall e :: e in p.edids ==> e in available
  {
    p.edids <= available
  }

  /** A profile that requires no fingerprint is available whatever is attached. */
  lemma EmptyProfileAlwaysAvailable(p: Profile, available: set<string>)
    requires p.edids == {}
    ensures IsAvailable(p, available)
  {
  }

  /** More available fingerprints never make an available profile unavailable. */
  lemma IsAvailableMonotone(p: Profile, available: set<string>, more: set<string>)
    requires IsAvailable(p, available) && available <= more
    ensures IsAvailable(p, more)
  {
  }

  /**
   * `init_set`: walks the slots in key order and adds each declared
   * fingerprint to the profile's set. Nothing else about the profile changes.
   */
  method InitSet(p: Profile) returns (q: Profile)
    ensures q == p.(edids := p.edids + DeclaredEdids(p.outputs))
  {
    var keys := SortedKeys(p.outputs);
    var edids := p.edids;
    for i := 0 to |keys|
      invariant edids == p.edids + DeclaredEdidsOf(p.outputs, keys[..i])
    {
      var output := p.outputs[keys[i]];
      DeclaredEdidsOfStep(p.edids, edids, p.outputs, keys, i);
      if output.edid.Some? {
        edids := edids + {output.edid.value};
      }
    }
    assert edids == p.edids + DeclaredEdids(p.outputs) by {
      assert keys[..|keys|] == keys;
      DeclaredEdidsOfAllKeys(p.outputs, keys);
    }
    q := p.(edids := edids);
  }

  lemma DeclaredEdidsOfSnoc(outputs: map<string, O.Output>, ks: seq<string>, k: string)
    requires k in outputs
    ensures DeclaredEdidsOf(outputs, ks + [k])
         == DeclaredEdidsOf(outputs, ks) + (if outputs[k].edid.Some? then {outputs[k].edid.value} else {})
  {
    var lhs := DeclaredEdidsOf(outputs, ks + [k]);
    var rhs := DeclaredEdidsOf(outputs, ks) + (if outputs[k].edid.Some? then {outputs[k].edid.value} else {});
    forall e | e in lhs ensures e in rhs {
      var k' :| k' in ks + [k] && k' in outputs && outputs[k'].edid == Some(e);
      if k' != k { assert k' in ks; }
    }
    forall e | e in rhs ensures e in lhs {
      if e in DeclaredEdidsOf(outputs, ks) {
        var k' :| k' in ks && k' in outputs && outputs[k'].edid == Some(e);
        assert k' in ks + [k];
      } else {
        assert k in ks + [k];
      }
    }
  }

  lemma DeclaredEdidsOfStep(start: set<string>, edids: set<string>, outputs: map<string, O.Output>, ks: seq<string>, i: nat)
    requires i < |ks| && ks[i] in outputs
    requires edids == start + DeclaredEdidsOf(outputs, ks[..i])
    ensures outputs[ks[i]].edid.Some? ==> edids + {outputs[ks[i]].edid.value} == start + DeclaredEdidsOf(outputs, ks[..i + 1])
    ensures outputs[ks[i]].edid.None? ==> edids == start + DeclaredEdidsOf(outputs, ks[..i + 1])
  {
    assert ks[..i + 1] == ks[..i] + [ks[i]];
    DeclaredEdidsOfSnoc(outputs, ks[..i], ks[i]);
  }

  lemma DeclaredEdidsOfAllKeys(outputs: map<string, O.Output>, ks: seq<string>)
    requires forall k :: k in ks <==> k in outputs
    ensures DeclaredEdidsOf(outputs, ks) == DeclaredEdids(outputs)
  {
  }

  /**
   * The name a profile is listed and sorted by: its declared `profile_name`,
   * else the file stem, else the empty default. The default is left only for
   * names without a stem, which are never YAML files (`LoadedNameIsStem`).
   */
  function ChooseName(profileName: Option<string>, stem: Option<string>): (r: string)
    ensures profileName.Some? ==> r == profileName.value
    ensures profileName.None? && stem.Some? ==> r == stem.value
    ensures profileName.None? && stem.None? ==> r == ""
  {
    match profileName
    case Some(s) => s
    case None => (match stem
      case Some(s) => s
      case None => "")
  }

  /**
   * `TryFrom<DirEntry> for Profile`: only `yaml`/`yml` files are read; `parsed`
   * stands for what opening, reading and deserialising the file produce.
   * A loaded profile keeps the file's slots and declared name, requires
   * exactly the fingerprints of its slots and is named by `ChooseName`.
   */
  method LoadProfile(fileName: string, parsed: Result<ProfileFile, Error>) returns (r: Result<Profile, Error>)
    ensures !Paths.IsYamlFile(fileName) ==> r == Failure(UnrecognizedProfileConfigFile(fileName))
    ensures Paths.IsYamlFile(fileName) && parsed.Failure? ==> r == Failure(parsed.error)
    ensures Paths.IsYamlFile(fileName) && parsed.Success? ==>
      && r.Success?
      && r.value.outputs == parsed.value.outputs
      && r.value.profileName == parsed.value.profileName
      && r.value.edids == DeclaredEdids(parsed.value.outputs)
      && r.value.name == ChooseName(parsed.value.profileName, Paths.FileStem(fileName))
    ensures r.Success? <==> Loaded(Entry(fileName, parsed)).Some?
    ensures r.Success? ==> r.value == Loaded(Entry(fileName, parsed)).value
  {
    if !Paths.IsYamlFile(fileName) {
      return Failure(UnrecognizedProfileConfigFile(fileName));
    }
    match parsed
    case Failure(e) =>
      r := Failure(e);
    case Success(file) =>
      var p := Profile(file.outputs, file.profileName, "", {});
      p := InitSet(p);
      if file.profileName.Some? {
        p := p.(name := file.profileName.value);
      } else if Paths.FileStem(fileName).Some? {
        p := p.(name := Paths.FileStem(fileName).value);
      }
      r := Success(p);
  }

  /** A loaded profile without a declared name is named by its file's non-empty stem. */
  lemma LoadedNameIsStem(fileName: string, profileName: Option<string>)
    requires Paths.IsYamlFile(fileName) && profileName.None?
    ensures ChooseName(profileName, Paths.FileStem(fileName)) != ""
    ensures fileName == ChooseName(profileName, Paths.FileStem(fileName)) + "." + Paths.Extension(fileName).value
  {
    Paths.ExtensionSplits(fileName);
  }

  /** `Ord for Profile`: profiles compare by name and nothing else. */
  function Compare(p: Profile, q: Profile): (r: Ordering)
    ensures r == Equal <==> p.name == q.name
    ensures r == Less <==> LexLess(p.name, q.name)
    ensures r == Greater <==> LexLess(q.name, p.name)
  {
    Cmp(p.name, q.name)
  }

  /** Two profiles with the same name compare equal however their slots differ. */
  lemma CompareOnlyByName(p: Profile, p': Profile, q: Profile, q': Profile)
    requires p.name == p'.name && q.name == q'.name
    ensures Compare(p, q) == Compare(p', q')
  {
  }

  /** `Compare` is a total order on names: antisymmetric and transitive. */
  lemma CompareIsOrder(p: Profile, q: Profile, s: Profile)
    ensures Compare(p, q) == Less <==> Compare(q, p) == Greater
    ensures Compare(p, q) != Greater && Compare(q, s) != Greater ==> Compare(p, s) != Greater
  {
    if Compare(p, q) != Greater && Compare(q, s) != Greater {
      LexLeqReflexive(p.name);
      LexLeqReflexive(q.name);
      LexLeqTransitive(p.name, q.name, s.name);
    }
  }

  /** No profile is followed by one with a smaller name. */
  ghost predicate SortedByName(s: seq<Profile>)
  {
    forall i, j :: 0 <= i < j < |s| ==> Compare(s[i], s[j]) != Greater
  }

  /** The profiles of `s` named `n`, in the order of `s`. */
  function NamedAs(s: seq<Profile>, n: string): seq<Profile>
  {
    if s == [] then []
    else NamedAs(s[..|s| - 1], n) + (if s[|s| - 1].name == n then [s[|s| - 1]] else [])
  }

  /**
   * Inserts `x` into `s` after the last element that does not compare
   * greater than it, so among equal names `x` comes last.
   */
  function Insert(s: seq<Profile>, x: Profile): (r: seq<Profile>)
  {
    if s == [] || Compare(x, s[|s| - 1]) != Less then s + [x]
    else Insert(s[..|s| - 1], x) + [s[|s| - 1]]
  }

  /** A stable sort by name: insertion of each profile in turn. */
  function SortByName(s: seq<Profile>): (r: seq<Profile>)
  {
    if s == [] then []
    else Insert(SortByName(s[..|s| - 1]), s[|s| - 1])
  }

  lemma {:induction false} NamedAsAppend(a: seq<Profile>, b: seq<Profile>, n: string)
    ensures NamedAs(a + b, n) == NamedAs(a, n) + NamedAs(b, n)
    decreases |b|
  {
    if b == [] {
      assert a + b == a;
    } else {
      var b' := b[..|b| - 1];
      assert (a + b)[..|a + b| - 1] == a + b';
      NamedAsAppend(a, b', n);
    }
  }

  lemma {:induction false} InsertMultiset(s: seq<Profile>, x: Profile)
    ensures multiset(Insert(s, x)) == multiset(s) + multiset{x}
    decreases |s|
  {
    if s != [] && Compare(x, s[|s| - 1]) == Less {
      var s', last := s[..|s| - 1], s[|s| - 1];
      assert s == s' + [last];
      InsertMultiset(s', x);
    }
  }

  lemma {:induction false} InsertNamedAs(s: seq<Profile>, x: Profile, n: string)
    ensures NamedAs(Insert(s, x), n) == NamedAs(s, n) + (if x.name == n then [x] else [])
    decreases |s|
  {
    if s == [] || Compare(x, s[|s| - 1]) != Less {
      NamedAsAppend(s, [x], n);
    } else {
      var s', last := s[..|s| - 1], s[|s| - 1];
      assert s == s' + [last];
      InsertNamedAs(s', x, n);
      NamedAsAppend(Insert(s', x), [last], n);
      NamedAsAppend(s', [last], n);
    }
  }

  lemma {:induction false} InsertSorted(s: seq<Profile>, x: Profile)
    requires SortedByName(s)
    ensures SortedByName(Insert(s, x))
    decreases |s|
  {
    if s == [] || Compare(x, s[|s| - 1]) != Less {
      if s != [] {
        forall i | 0 <= i < |s| ensures Compare(s[i], x) != Greater {
          CompareIsOrder(s[i], s[|s| - 1], x);
          CompareIsOrder(s[|s| - 1], x, x);
        }
      }
    } else {
      var s', last := s[..|s| - 1], s[|s| - 1];
      InsertSorted(s', x);
      InsertMultiset(s', x);
      var r' := Insert(s', x);
      forall i | 0 <= i < |r'| ensures Compare(r'[i], last) != Greater {
        assert r'[i] in multiset(r');
        if r'[i] == x {
          CompareIsOrder(x, last, x);
        } else {
          assert r'[i] in multiset(s');
          var k :| 0 <= k < |s'| && s'[k] == r'[i];
        }
      }
    }
  }

  /** `SortByName` orders by name ascending. */
  lemma {:induction false} SortByNameSorted(s: seq<Profile>)
    ensures SortedByName(SortByName(s))
    decreases |s|
  {
    if s != [] {
      SortByNameSorted(s[..|s| - 1]);
      InsertSorted(SortByName(s[..|s| - 1]), s[|s| - 1]);
    }
  }

  /** `SortByName` is a permutation. */
  lemma {:induction false} SortByNamePermutes(s: seq<Profile>)
    ensures multiset(SortByName(s)) == multiset(s)
    decreases |s|
  {
    if s != [] {
      var s', last := s[..|s| - 1], s[|s| - 1];
      assert s == s' + [last];
      SortByNamePermutes(s');
      InsertMultiset(SortByName(s'), last);
    }
  }

  /** `SortByName` is stable: the profiles named `n` keep their relative order. */
  lemma {:induction false} SortByNameStable(s: seq<Profile>, n: string)
    ensures NamedAs(SortByName(s), n) == NamedAs(s, n)
    decreases |s|
  {
    if s != [] {
      var s', last := s[..|s| - 1], s[|s| - 1];
      assert s == s' + [last];
      SortByNameStable(s', n);
      InsertNamedAs(SortByName(s'), last, n);
      NamedAsAppend(s', [last], n);
    }
  }

  /**
   * One step of the insertion sort: moves `a[i]` left past the profiles of
   * `a[..i]` that compare greater than it.
   */
  method InsertLast(a: array<Profile>, i: nat)
    requires i < a.Length
    modifies a
    ensures a[..i + 1] == Insert(old(a[..i]), old(a[i]))
    ensures a[i + 1..] == old(a[i + 1..])
  {
    ghost var sorted := a[..i];
    var x := a[i];
    var j := i;
    while j > 0 && Compare(x, a[j - 1]) == Less
      invariant 0 <= j <= i
      invariant forall k :: 0 <= k < j ==> a[k] == sorted[k]
      invariant forall k :: j < k <= i ==> a[k] == sorted[k - 1]
      invariant forall k :: i < k < a.Length ==> a[k] == old(a[k])
      invariant forall k :: j <= k < i ==> Compare(x, sorted[k]) == Less
    {
      a[j] := a[j - 1];
      j := j - 1;
    }
    a[j] := x;
    InsertAt(sorted, x, j);
    Placed(a[..], sorted, x, i, j);
    assert a[i + 1..] == old(a[i + 1..]);
  }

  /** The array after an insertion step, read as a sequence. */
  lemma Placed(t: seq<Profile>, sorted: seq<Profile>, x: Profile, i: nat, j: nat)
    requires |sorted| == i < |t| && j <= i
    requires forall k :: 0 <= k < j ==> t[k] == sorted[k]
    requires t[j] == x
    requires forall k :: j < k <= i ==> t[k] == sorted[k - 1]
    ensures t[..i + 1] == sorted[..j] + [x] + sorted[j..]
  {
  }

  /**
   * Where `Insert` puts `x`: after the profiles up to the last one that does
   * not compare greater than `x`, before the ones that all compare greater.
   */
  lemma {:induction false} InsertAt(s: seq<Profile>, x: Profile, j: nat)
    requires j <= |s| && (j == 0 || Compare(x, s[j - 1]) != Less)
    requires forall k :: j <= k < |s| ==> Compare(x, s[k]) == Less
    ensures Insert(s, x) == s[..j] + [x] + s[j..]
    decreases |s|
  {
    if j < |s| {
      var s' := s[..|s| - 1];
      assert s'[..j] == s[..j];
      if j > 0 { assert s'[j - 1] == s[j - 1]; }
      InsertAt(s', x, j);
      assert s[j..] == s'[j..] + [s[|s| - 1]];
    } else {
      assert s[..j] == s;
    }
  }

  /**
   * `profiles.sort()`: an in-place stable sort of the loaded profiles by name.
   */
  method SortProfiles(a: array<Profile>)
    modifies a
    ensures a[..] == SortByName(old(a[..]))
  {
    ghost var input := a[..];
    for i := 0 to a.Length
      invariant a[..i] == SortByName(input[..i])
      invariant a[i..] == input[i..]
    {
      assert input[..i + 1] == input[..i] + [input[i]];
      InsertLast(a, i);
    }
    assert a[..] == a[..a.Length];
    assert input[..a.Length] == input;
  }

  /**
   * One entry of the profile directory: `Unreadable` when `read_dir` yields an
   * error for it, otherwise its file name and what opening, reading and
   * deserialising the file yield.
   */
  datatype DirEntry = Unreadable | Entry(fileName: string, parsed: Result<ProfileFile, Error>)

  /**
   * The profile an entry loads as, if it loads: a YAML file that parsed, with
   * its slots and declared name, the fingerprints of its slots and the name
   * `ChooseName` gives it.
   */
  function Loaded(e: DirEntry): Option<Profile>
  {
    match e
    case Unreadable => None
    case Entry(fileName, parsed) =>
      if Paths.IsYamlFile(fileName) && parsed.Success? then
        var file := parsed.value;
        Some(Profile(file.outputs, file.profileName, ChooseName(file.profileName, Paths.FileStem(fileName)), DeclaredEdids(file.outputs)))
      else None
  }

  /** What loading each entry gives, in directory order. */
  function Outcomes(entries: seq<DirEntry>): (r: seq<Option<Profile>>)
    ensures |r| == |entries|
    ensures forall i :: 0 <= i < |r| ==> r[i] == Loaded(entries[i])
  {
    seq(|entries|, i requires 0 <= i < |entries| => Loaded(entries[i]))
  }

  /** The profiles among `outcomes`, in order; the absent ones are dropped. */
  function Kept(outcomes: seq<Option<Profile>>): seq<Profile>
  {
    if outcomes == [] then []
    else
      var last := match outcomes[|outcomes| - 1] case Some(p) => [p] case None => [];
      Kept(outcomes[..|outcomes| - 1]) + last
  }

  /** A profile is kept exactly when it is one of the outcomes. */
  lemma {:induction false} KeptMembers(outcomes: seq<Option<Profile>>)
    ensures forall p :: p in Kept(outcomes) <==> Some(p) in outcomes
    decreases |outcomes|
  {
    if outcomes != [] {
      var o' := outcomes[..|outcomes| - 1];
      KeptMembers(o');
      assert outcomes == o' + [outcomes[|outcomes| - 1]];
    }
  }

  /**
   * For a profile that requires exactly its slots' fingerprints, as every
   * stored one does, availability is a test of those slots.
   */
  lemma AvailableBySlots(p: Profile, available: set<string>)
    requires p.edids == DeclaredEdids(p.outputs)
    ensures IsAvailable(p, available) <==>
      forall k :: k in p.outputs && p.outputs[k].edid.Some? ==> p.outputs[k].edid.value in available
  {
    if forall k :: k in p.outputs && p.outputs[k].edid.Some? ==> p.outputs[k].edid.value in available {
      forall e | e in p.edids ensures e in available {
        var k :| k in p.outputs && p.outputs[k].edid.Some? && p.outputs[k].edid.value == e;
      }
    }
  }

  /**
   * The `filter_map` of `Config::load`: loads every entry with `LoadProfile`
   * and keeps the profiles that loaded, in directory order; failures are
   * skipped, not fatal.
   */
  method LoadEntries(entries: seq<DirEntry>) returns (loaded: seq<Profile>)
    ensures loaded == Kept(Outcomes(entries))
  {
    ghost var outcomes := Outcomes(entries);
    loaded := [];
    for i := 0 to |entries|
      invariant loaded == Kept(outcomes[..i])
    {
      assert outcomes[..i + 1] == outcomes[..i] + [Loaded(entries[i])];
      match entries[i]
      case Unreadable =>
      case Entry(fileName, parsed) =>
        var r := LoadProfile(fileName, parsed);
        if r.Success? {
          loaded := loaded + [r.value];
        }
    }
    assert outcomes[..|entries|] == outcomes;
  }

  /**
   * The loaded profiles are those some entry loads as, and each requires
   * exactly the fingerprints of its own slots.
   */
  lemma LoadedProfiles(entries: seq<DirEntry>)
    ensures forall p :: p in Kept(Outcomes(entries)) <==> exists i :: 0 <= i < |entries| && Loaded(entries[i]) == Some(p)
    ensures forall p :: p in Kept(Outcomes(entries)) ==> p.edids == DeclaredEdids(p.outputs)
  {
    var outcomes := Outcomes(entries);
    KeptMembers(outcomes);
    forall p | Some(p) in outcomes
      ensures exists i :: 0 <= i < |entries| && Loaded(entries[i]) == Some(p)
      ensures p.edids == DeclaredEdids(p.outputs)
    {
      var i :| 0 <= i < |outcomes| && outcomes[i] == Some(p);
    }
  }

  /**
   * `Config::load`: the loaded profiles, sorted in place by name. The store
   * holds exactly the profiles that loaded, ordered by name, profiles with
   * equal names in directory order, and each requires exactly its slots'
   * fingerprints.
   */
  method Load(entries: seq<DirEntry>) returns (c: Config)
    ensures c.profiles == SortByName(Kept(Outcomes(entries)))
    ensures SortedByName(c.profiles)
    ensures multiset(c.profiles) == multiset(Kept(Outcomes(entries)))
    ensures forall p :: p in c.profiles <==> exists i :: 0 <= i < |entries| && Loaded(entries[i]) == Some(p)
    ensures forall p :: p in c.profiles ==> p.edids == DeclaredEdids(p.outputs)
  {
    var loaded := LoadEntries(entries);
    var a := new Profile[|loaded|](i requires 0 <= i < |loaded| => loaded[i]);
    assert a[..] == loaded;
    SortProfiles(a);
    c := Config(a[..]);
    SortByNameSorted(loaded);
    SortByNamePermutes(loaded);
    LoadedProfiles(entries);
    forall p ensures p in c.profiles <==> p in loaded {
      assert p in c.profiles <==> p in multiset(c.profiles);
      assert p in loaded <==> p in multiset(loaded);
    }
  }
}
