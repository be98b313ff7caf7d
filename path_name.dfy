/**
 * `pathlib.PurePosixPath(p).name` and `.suffix`. A path's name is its last
 * component once empty and "." components are dropped; its suffix is the part
 * of the name from the last "." on, unless that dot is the name's first or
 * last character.
 */
module PathName {
  import opened PyText

  /** `s.rfind(c)`: the index of the last `c` in `s`, if any. */
  function LastIndexOf(s: string, c: char): (r: Option<nat>)
    ensures r.Some? ==> r.value < |s| && s[r.value] == c
    ensures r.Some? ==> forall j :: r.value < j < |s| ==> s[j] != c
    ensures r.None? ==> c !in s
  {
    if s == [] then None
    else if s[|s| - 1] == c then Some(|s| - 1)
    else LastIndexOf(s[..|s| - 1], c)
  }

  /** A single path component that pathlib keeps: non-empty, not ".", no "/". */
  predicate IsComponent(s: string) {
    s != "" && s != "." && '/' !in s
  }

  /** `Path(p).name` */
  function Name(p: string): (r: string)
    ensures r == "" || IsComponent(r)
    decreases |p|
  {
    match LastIndexOf(p, '/')
    case None => if p == "" || p == "." then "" else p
    case Some(i) =>
      var last := p[i + 1..];
      assert '/' !in last;
      if last == "" || last == "." then Name(p[..i]) else last
  }

  /** `Path(p).suffix` */
  function Suffix(p: string): (r: string)
    ensures r == "" || (|r| >= 2 && r[0] == '.' && '.' !in r[1..] && '/' !in r)
    ensures r == "" || EndsWith(Name(p), r)
  {
    var name := Name(p);
    match LastIndexOf(name, '.')
    case None => ""
    case Some(i) =>
      if 0 < i < |name| - 1 then
        name[i..]
      else ""
  }

  /** The name of a path is its last component, whatever directories precede it. */
  lemma NameOfNestedPath(dir: string, base: string)
    requires IsComponent(base)
    ensures Name(base) == base
    ensures Name(dir + "/" + base) == base
  {
    var p := dir + "/" + base;
    assert p[|dir|] == '/';
    assert p[|dir| + 1..] == base;
    assert forall j :: |dir| < j < |p| ==> p[j] == base[j - |dir| - 1];
  }

  /** A name `stem.ext` has suffix `.ext` when the extension holds no dot. */
  lemma SuffixOfDottedName(stem: string, ext: string)
    requires IsComponent(stem)
    requires ext != "" && '.' !in ext && '/' !in ext
    ensures Suffix(stem + "." + ext) == "." + ext
  {
    var name := stem + "." + ext;
    assert IsComponent(name) by {
      assert forall j :: 0 <= j < |name| && name[j] == '/' ==> (j < |stem| && stem[j] == '/') || (j > |stem| && ext[j - |stem| - 1] == '/');
    }
    NameOfNestedPath("", name);
    assert name[|stem|] == '.';
    assert forall j :: |stem| < j < |name| ==> name[j] == ext[j - |stem| - 1];
    assert name[|stem|..] == "." + ext;
  }

  /** A name with no dot, or whose only dot leads it, has no suffix. */
  lemma NoSuffixWithoutInnerDot(name: string)
    requires IsComponent(name)
    requires '.' !in name[1..]
    ensures Suffix(name) == ""
  {
    NameOfNestedPath("", name);
    assert Name(name) == name;
  }
}
