/**
 * Rust's `Path::extension` and `Path::file_stem`, applied to the file name of
 * a directory entry, and the `yaml`/`yml` test both loaders start with.
 * The file name is split at its last '.', except that a name whose only '.'
 * is its first character (".profile") and the name ".." have no extension.
 */
module Paths {
  import opened Wrappers

  /** Index of the last '.' in `name`, if any. */
  function LastDot(name: string): (r: Option<nat>)
    ensures r.Some? ==> r.value < |name| && name[r.value] == '.' && '.' !in name[r.value + 1..]
    ensures r.None? ==> '.' !in name
  {
    if name == [] then None
    else if name[|name| - 1] == '.' then Some(|name| - 1)
    else
      var r := LastDot(name[..|name| - 1]);
      assert name == name[..|name| - 1] + [name[|name| - 1]];
      r
  }

  /**
   * The part of a file name before its extension. The names "", "." and ".."
   * do not name a file, so they have no stem.
   */
  function FileStem(name: string): (r: Option<string>)
    ensures r.None? <==> name == "" || name == "." || name == ".."
    ensures r.Some? ==> r.value != [] && r.value <= name
    ensures r.Some? && Extension(name).None? ==> r.value == name
  {
    if name == "" || name == "." || name == ".." then None
    else match LastDot(name)
      case None => Some(name)
      case Some(i) => if i == 0 then Some(name) else Some(name[..i])
  }

  /**
   * The part of a file name after its last '.', when it has an extension: the
   * '.' must not be the first character, and ".." has none.
   */
  function Extension(name: string): (r: Option<string>)
    ensures r.Some? ==> |r.value| + 1 < |name| && name[|name| - |r.value| - 1] == '.'
                        && name[|name| - |r.value|..] == r.value && '.' !in r.value
    ensures r.None? <==> name == ".." || '.' !in name || (name[0] == '.' && '.' !in name[1..])
  {
    if name == ".." then None
    else match LastDot(name)
      case None => None
      case Some(i) => if i == 0 then None else Some(name[i + 1..])
  }

  /**
   * Only these two extensions, compared case-sensitively, are read as YAML:
   * the name is a non-empty stem followed by ".yaml" or ".yml".
   */
  function IsYamlFile(name: string): (r: bool)
    ensures r <==> EndsWithExtension(name, "yaml") || EndsWithExtension(name, "yml")
  {
    ExtensionIs(name, "yaml");
    ExtensionIs(name, "yml");
    Extension(name) == Some("yaml") || Extension(name) == Some("yml")
  }

  /** `name` is a non-empty stem, a '.', and `ext`. */
  predicate EndsWithExtension(name: string, ext: string)
  {
    |name| > |ext| + 1 && name[|name| - |ext| - 1..] == "." + ext
  }

  /** A non-empty dot-free `ext` is the extension exactly of the names that end with it after a stem. */
  lemma ExtensionIs(name: string, ext: string)
    requires ext != [] && '.' !in ext
    ensures Extension(name) == Some(ext) <==> EndsWithExtension(name, ext)
  {
    if Extension(name) == Some(ext) {
      ExtensionSplits(name);
      var stem := FileStem(name).value;
      assert name[|name| - |ext| - 1..] == "." + ext;
    }
    if EndsWithExtension(name, ext) {
      var stem := name[..|name| - |ext| - 1];
      assert name == stem + "." + ext;
      JoinSplits(stem, ext);
    }
  }

  /** A file name with an extension is its non-empty stem, a '.', and an extension without a '.'. */
  lemma ExtensionSplits(name: string)
    requires Extension(name).Some?
    ensures FileStem(name).Some? && FileStem(name).value != []
    ensures name == FileStem(name).value + "." + Extension(name).value
    ensures '.' !in Extension(name).value
  {
    var i := LastDot(name).value;
    assert name == name[..i] + "." + name[i + 1..];
  }

  /** Joining a non-empty stem and a dot-free extension gives them back. */
  lemma JoinSplits(stem: string, ext: string)
    requires stem != [] && '.' !in ext
    requires stem + "." + ext != ".."
    ensures Extension(stem + "." + ext) == Some(ext)
    ensures FileStem(stem + "." + ext) == Some(stem)
  {
    var name := stem + "." + ext;
    var i := |stem|;
    assert name[i] == '.';
    assert name[i + 1..] == ext;
    assert name[..i] == stem;
    LastDotIsLast(name, i);
  }

  lemma {:induction false} LastDotIsLast(name: string, i: nat)
    requires i < |name| && name[i] == '.' && '.' !in name[i + 1..]
    ensures LastDot(name) == Some(i)
    decreases |name|
  {
    if i < |name| - 1 {
      assert name[|name| - 1] in name[i + 1..];
      var pre := name[..|name| - 1];
      assert pre[i + 1..] == name[i + 1..|name| - 1];
      LastDotIsLast(pre, i);
    }
  }
}
