/**
 Discovery: how deploy_all.py turns directory listings into the arguments it
 hands to the migration library. The filesystem is given as a value: the
 `srcdata` folders found under the base folder, in traversal order, and for
 each folder the stems of the regular `*.csv` files directly inside it.
 */
module Discovery {
  import opened Options
  import opened Strings
  import opened Dicts

  /** A directory, as its sequence of path components (Python's `Path.parts`). */
  datatype Folder = Folder(parts: seq<string>)

  /** What the run reads from the disk. */
  datatype FileSystem = FileSystem(
    baseExists: bool,                    // `base_path.exists()`
    srcdataFolders: seq<Folder>,         // `base_path.rglob("srcdata")`, in traversal order
    csvFiles: map<Folder, seq<string>>)  // stems of `folder.glob("*.csv")` that are regular files

  /**
   The stems of the `*.csv` files directly in `folder`; a missing folder
   globs to nothing. The listing is an input, so this has no contract of its
   own: `DiscoveredProjects` and `DiscoveredMappings` say what is made of it.
   */
  function CsvStems(fs: FileSystem, folder: Folder): seq<string>
  {
    if folder in fs.csvFiles then fs.csvFiles[folder] else []
  }

  // ---------------------------------------------------------------------------
  // Source-folder selection

  /** `[folder for folder in folders if customer in folder.parts]` */
  function Matching(folders: seq<Folder>, customer: string): (r: seq<Folder>)
    ensures forall f :: f in r <==> f in folders && customer in f.parts
  {
    if folders == [] then []
    else if customer in folders[0].parts then [folders[0]] + Matching(folders[1..], customer)
    else Matching(folders[1..], customer)
  }

  /** The first matching folder, or None when the customer has none (the `continue`). */
  function SelectFolder(folders: seq<Folder>, customer: string): (r: Option<Folder>)
    ensures r.None? <==> forall i :: 0 <= i < |folders| ==> customer !in folders[i].parts
    ensures r.Some? ==> r.value in folders && customer in r.value.parts
  {
    var m := Matching(folders, customer);
    if m == [] then None
    else
      assert m[0] in m;
      Some(m[0])
  }

  /** `i` is the position of the first folder that has `customer` as a component. */
  ghost predicate FirstMatchAt(folders: seq<Folder>, customer: string, i: int)
  {
    0 <= i < |folders| && customer in folders[i].parts &&
    forall j :: 0 <= j < i ==> customer !in folders[j].parts
  }

  /** The folder chosen is the first in input order that has the customer as a component. */
  lemma {:induction false} SelectFolderIsFirst(folders: seq<Folder>, customer: string)
    ensures SelectFolder(folders, customer).Some? ==>
      exists i :: FirstMatchAt(folders, customer, i) && folders[i] == SelectFolder(folders, customer).value
  {
    if folders != [] {
      if customer in folders[0].parts {
        assert FirstMatchAt(folders, customer, 0);
      } else {
        var rest := folders[1..];
        assert Matching(folders, customer) == Matching(rest, customer);
        SelectFolderIsFirst(rest, customer);
        if SelectFolder(rest, customer).Some? {
          var i :| FirstMatchAt(rest, customer, i) && rest[i] == SelectFolder(rest, customer).value;
          assert FirstMatchAt(folders, customer, i + 1);
        }
      }
    }
  }

  /** Only whole components count: a component that merely contains the name does not match. */
  lemma SubstringDoesNotMatch()
    ensures SelectFolder([Folder(["Projekte", "sibax", "srcdata"])], "siba").None?
  {
  }

  // ---------------------------------------------------------------------------
  // Projects

  const Add1Marker := " (ADD1)"
  const Add2Marker := " (ADD2)"

  /** `stem.replace(" (ADD1)", "").replace(" (ADD2)", "")` */
  function StripMarkers(stem: string): (r: string)
    ensures |r| <= |stem|
    ensures !Occurs(Add1Marker, stem) && !Occurs(Add2Marker, stem) ==> r == stem
  {
    RemoveAll(RemoveAll(stem, Add1Marker), Add2Marker)
  }

  /** The marker strip applied to every CSV stem, keeping order and duplicates. */
  function NormalizedStems(stems: seq<string>): (r: seq<string>)
    ensures |r| == |stems|
    ensures forall i :: 0 <= i < |r| ==> r[i] == StripMarkers(stems[i])
  {
    if stems == [] then [] else [StripMarkers(stems[0])] + NormalizedStems(stems[1..])
  }

  /** `[project.split("_", 1)[0] for project in projects]` */
  function ProjectNames(names: seq<string>): (r: seq<string>)
    ensures |r| == |names|
    ensures forall i :: 0 <= i < |r| ==> '_' !in r[i] && r[i] <= names[i]
    ensures forall i :: 0 <= i < |r| ==> ('_' !in names[i] <==> r[i] == names[i])
    ensures forall i :: 0 <= i < |r| && '_' in names[i] ==> names[i][|r[i]|] == '_'
    ensures forall i :: 0 <= i < |r| ==> r[i] == Before(names[i], '_')
  {
    if names == [] then [] else [Before(names[0], '_')] + ProjectNames(names[1..])
  }

  /**
   The dict that deploy_all.py lines 71-74 build: every name containing `_`, in order of
   first insertion, mapped to the text after its first `_`.
   */
  function MultiProjects(names: seq<string>): (d: Dict<string>)
    ensures d.Valid()
  {
    if names == [] then Empty()
    else
      var n := |names| - 1;
      var name := names[n];
      if '_' in name then MultiProjects(names[..n]).Put(name, After(name, '_'))
      else MultiProjects(names[..n])
  }

  /** The loop of deploy_all.py lines 71-74, which inserts into `multi_projects` one name at a time. */
  method CollectMultiProjects(names: seq<string>) returns (multi: Dict<string>)
    ensures multi == MultiProjects(names)
  {
    multi := Empty();
    for i := 0 to |names|
      invariant multi == MultiProjects(names[..i])
    {
      assert names[..i + 1][..i] == names[..i];
      var name := names[i];
      if '_' in name {
        multi := multi.Put(name, After(name, '_'));
      }
    }
    assert names[..|names|] == names;
  }

  /** The names that contain `_`, in order, with repetitions. */
  function Underscored(names: seq<string>): (r: seq<string>)
    ensures forall k :: k in r <==> k in names && '_' in k
    ensures |r| <= |names|
  {
    if names == [] then []
    else
      var n := |names| - 1;
      assert forall x :: x in names <==> x in names[..n] || x == names[n];
      Underscored(names[..n]) + if '_' in names[n] then [names[n]] else []
  }

  /**
   The order of `multi_projects`, which the library receives as it is: the
   names that contain `_`, in the order of their first appearance.
   */
  lemma {:induction false} MultiProjectsOrder(names: seq<string>)
    ensures MultiProjects(names).keys == Dedup(Underscored(names))
  {
    if names != [] {
      var n := |names| - 1;
      var x := names[n];
      var u := Underscored(names[..n]);
      MultiProjectsOrder(names[..n]);
      if '_' in x {
        assert Underscored(names) == u + [x];
        assert (u + [x])[..|u|] == u;
        assert MultiProjects(names) == MultiProjects(names[..n]).Put(x, After(x, '_'));
      } else {
        assert Underscored(names) == u;
        assert MultiProjects(names) == MultiProjects(names[..n]);
      }
    }
  }

  /**
   The keys of `multi_projects` are exactly the names that contain `_`; each
   key is its project entry, an `_`, and its value.
   */
  lemma {:induction false} MultiProjectsKeys(names: seq<string>)
    ensures forall k :: k in MultiProjects(names).values <==> k in names && '_' in k
    ensures forall k :: k in MultiProjects(names).values ==>
      MultiProjects(names).values[k] == After(k, '_') &&
      k == Before(k, '_') + "_" + MultiProjects(names).values[k]
  {
    if names != [] {
      var n := |names| - 1;
      MultiProjectsKeys(names[..n]);
      assert forall k :: k in names <==> k in names[..n] || k == names[n];
    }
  }

  // ---------------------------------------------------------------------------
  // Mappings

  /** `Path.parent`: the folder without its last component; the empty path is its own parent. */
  function Parent(f: Folder): (r: Folder)
    ensures f.parts != [] ==> f.parts == r.parts + [f.parts[|f.parts| - 1]]
    ensures f.parts == [] ==> r == f
  {
    if f.parts == [] then f else Folder(f.parts[..|f.parts| - 1])
  }

  /** `srcdatafolder.parent / "mappings"`: the `mappings` sibling of the `srcdata` folder. */
  function MappingsFolder(srcdata: Folder): (m: Folder)
    ensures Parent(m) == Parent(srcdata)
    ensures |m.parts| > 0 && m.parts[|m.parts| - 1] == "mappings"
  {
    var p := Parent(srcdata).parts + ["mappings"];
    assert p[..|p| - 1] == Parent(srcdata).parts;
    Folder(p)
  }

  /** The length of the fixed prefix dropped from every mapping stem. */
  const MappingPrefixLength := 8

  /** `[mapping.stem[8:] for mapping in ...]`, in order and with duplicates. */
  function MappingFields(stems: seq<string>): (r: seq<string>)
    ensures |r| == |stems|
    ensures forall i :: 0 <= i < |r| ==>
      |r[i]| == (if |stems[i]| <= MappingPrefixLength then 0 else |stems[i]| - MappingPrefixLength) &&
      r[i] == stems[i][|stems[i]| - |r[i]|..]
  {
    if stems == [] then [] else [DropFirst(stems[0], MappingPrefixLength)] + MappingFields(stems[1..])
  }

  // ---------------------------------------------------------------------------
  // What is handed to the library

  /** The discovered arguments of the `NemoLibrary` constructor (credentials left out). */
  datatype LibraryArgs = LibraryArgs(
    projects: seq<string>,
    multiProjects: Dict<string>,
    mappingFields: seq<string>,
    localProjectDirectory: Folder)

  /**
   deploy_all.py lines 60-100 for one selected `srcdata` folder. What the
   arguments are is stated by `DiscoveredProjects`, `DiscoveredMappings` and
   `MultiProjectsOrder`.
   */
  function Discover(fs: FileSystem, srcdata: Folder): LibraryArgs
  {
    var names := NormalizedStems(CsvStems(fs, srcdata));
    LibraryArgs(
      ProjectNames(names),
      MultiProjects(names),
      MappingFields(CsvStems(fs, MappingsFolder(srcdata))),
      Parent(srcdata))
  }

  /**
   The projects the library receives for a folder: one per CSV stem, in
   order, each the stripped stem cut at its first `_`; and a multi-project
   entry for exactly the stripped stems that contain `_`.
   */
  lemma DiscoveredProjects(fs: FileSystem, srcdata: Folder)
    ensures var a, stems := Discover(fs, srcdata), CsvStems(fs, srcdata);
      |a.projects| == |stems| &&
      (forall i :: 0 <= i < |stems| ==> a.projects[i] == Before(StripMarkers(stems[i]), '_')) &&
      (forall k :: k in a.multiProjects.values <==> k in NormalizedStems(stems) && '_' in k)
  {
    var names := NormalizedStems(CsvStems(fs, srcdata));
    assert Discover(fs, srcdata).projects == ProjectNames(names);
    assert Discover(fs, srcdata).multiProjects == MultiProjects(names);
    MultiProjectsKeys(names);
  }

  /**
   The mapping fields the library receives: one per stem in the sibling
   `mappings` folder, in order, each without its first 8 characters; and
   the parent of the `srcdata` folder as the project directory.
   */
  lemma DiscoveredMappings(fs: FileSystem, srcdata: Folder)
    ensures var a, stems := Discover(fs, srcdata), CsvStems(fs, MappingsFolder(srcdata));
      |a.mappingFields| == |stems| &&
      (forall i :: 0 <= i < |stems| ==> a.mappingFields[i] == DropFirst(stems[i], MappingPrefixLength)) &&
      a.localProjectDirectory == Parent(srcdata)
  {
    var stems := CsvStems(fs, MappingsFolder(srcdata));
    assert Discover(fs, srcdata).mappingFields == MappingFields(stems);
  }

  /**
   A stem with no marker and no `_` reaches the project list unchanged and
   adds no entry to `multi_projects`.
   */
  lemma PlainStemUnchanged(stems: seq<string>, i: nat)
    requires i < |stems|
    requires !Occurs(Add1Marker, stems[i]) && !Occurs(Add2Marker, stems[i]) && '_' !in stems[i]
    ensures ProjectNames(NormalizedStems(stems))[i] == stems[i]
    ensures stems[i] !in MultiProjects(NormalizedStems(stems)).values
  {
    MultiProjectsKeys(NormalizedStems(stems));
  }

  /** Splitting the project list again changes nothing. */
  lemma ProjectNamesIdempotent(names: seq<string>)
    ensures ProjectNames(ProjectNames(names)) == ProjectNames(names)
  {
  }

  /** The second strip does not touch " (ADD1)". */
  lemma {:induction false} OtherMarkerUntouched()
    ensures RemoveAll(Add1Marker, Add2Marker) == Add1Marker
  {
    assert Add2Marker[5] != Add1Marker[5];
    OccursNeedsRoom(Add2Marker, Add1Marker[1..]);
  }

  /**
   Python's `replace` can leave a marker behind: removing the inner
   " (ADD1)" of " (AD (ADD1)D1)" joins the rest into a new " (ADD1)".
   */
  lemma {:induction false} MarkerCanSurviveStrip()
    ensures StripMarkers(" (AD (ADD1)D1)") == Add1Marker
    ensures Occurs(Add1Marker, StripMarkers(" (AD (ADD1)D1)"))
  {
    var pre, post := " (AD", "D1)";
    var stem := pre + Add1Marker + post;
    assert stem == " (AD (ADD1)D1)";
    forall k | 0 <= k < |pre| ensures !(Add1Marker <= pre[k..] + Add1Marker + post) {
      var t := pre[k..] + Add1Marker + post;
      assert t[4 - k] != Add1Marker[4 - k];
    }
    OccursNeedsRoom(Add1Marker, post);
    assert RemoveAll(post, Add1Marker) == post;
    RemoveAllJoin(pre, Add1Marker, post);
    assert pre + post == Add1Marker;
    OtherMarkerUntouched();
  }

  /**
   So the strip is not idempotent: stripping " (AD (ADD1)D1)" a second time
   removes the marker the first strip left behind.
   */
  lemma {:induction false} StripNotIdempotent()
    ensures StripMarkers(StripMarkers(" (AD (ADD1)D1)")) == ""
    ensures StripMarkers(StripMarkers(" (AD (ADD1)D1)")) != StripMarkers(" (AD (ADD1)D1)")
  {
    MarkerCanSurviveStrip();
    var m := Add1Marker;
    assert m <= m && m[|m|..] == [];
    assert RemoveAll(m, m) == RemoveAll([], m);
    assert StripMarkers(m) == RemoveAll([], Add2Marker);
  }

  /** A worked example: "ProjA (ADD1)" loses its marker. */
  lemma ExampleStrip()
    ensures StripMarkers("ProjA (ADD1)") == "ProjA"
  {
    var name := "ProjA";
    RemoveAllSkipsPrefix(name, Add1Marker, Add1Marker);
    assert Add1Marker[|Add1Marker|..] == [];
    assert name + Add1Marker == "ProjA (ADD1)";
    RemoveAllSkipsPrefix(name, [], Add2Marker);
    assert name + [] == name;
  }

  /**
   A project and its `_` variant both give the project's name, and the
   duplicate stays in the list: "ProjA", "ProjA_ext", "ProjB" give
   "ProjA", "ProjA", "ProjB".
   */
  lemma {:induction false} VariantSharesProject(a: string, ext: string, c: string)
    requires '_' !in a && '_' !in c
    ensures ProjectNames([a, a + "_" + ext, c]) == [a, a, c]
  {
    SplitJoin(a, '_', ext);
    var r := ProjectNames([a, a + "_" + ext, c]);
    assert r[0] == a && r[1] == a && r[2] == c;
  }

  /** A worked example: "mapping_foo" gives "foo"; a short stem gives "". */
  lemma ExampleMappings()
    ensures MappingFields(["mapping_foo", "short"]) == ["foo", ""]
  {
  }
}
