/**
 * The resource manager: a table from resource names to the info read from
 * each `.ini` info file, and the resources created from it on first use.
 *
 * A resource info is the INI document of its file plus the folder the file
 * sits in.  The manager keeps a `weak_ptr` to each loaded resource, so a
 * resource is reused only while someone still owns it; which resources are
 * still owned is a parameter of `Get`.
 */
module Resources {
  import opened Wrappers
  import opened IniText
  import opened LineText
  import Registrable

  /** The prefix of `path` through its last '\\' (the match of the regular expression `.*\\`), or "" when there is none. */
  function Folder(path: string): (f: string)
    ensures |f| <= |path| && f == path[..|f|]
    ensures f == [] || f[|f| - 1] == '\\'
    ensures Free(path[|f|..], '\\')
    decreases |path|
  {
    if path == [] then []
    else if path[|path| - 1] == '\\' then path
    else
      var f := Folder(path[..|path| - 1]);
      assert path[|f|..] == path[..|path| - 1][|f|..] + [path[|path| - 1]];
      f
  }

  /** A file name after a folder path: the folder is recovered whole. */
  lemma {:induction false} FolderOfFile(dir: string, file: string)
    requires Free(file, '\\')
    ensures Folder(dir + "\\" + file) == dir + "\\"
    decreases |file|
  {
    var p := dir + "\\" + file;
    if file == [] {
      assert p == dir + "\\";
    } else {
      assert p[..|p| - 1] == dir + "\\" + file[..|file| - 1];
      assert p[|p| - 1] == file[|file| - 1];
      FolderOfFile(dir, file[..|file| - 1]);
    }
  }

  /** `GetSection(section).GetKey(key)`: `None` stands for the `out_of_range` that `at` throws on a missing key. */
  function Lookup(doc: Doc, section: string, key: string): (r: Option<string>)
    ensures r.Some? <==> section in doc && key in doc[section]
    ensures r.Some? ==> r.value == doc[section][key]
  {
    if section in doc && key in doc[section] then Some(doc[section][key]) else None
  }

  /** `ResourceInfo`: the document read from the info file, and the folder of that file. */
  datatype ResourceInfo = ResourceInfo(doc: Doc, folder: string)
  {
    /** The "Name" key of section "General"; `None` where the engine's `at` throws. */
    function GetName(): (r: Option<string>)
      ensures r.Some? <==> "General" in doc && "Name" in doc["General"]
      ensures r.Some? ==> r.value == doc["General"]["Name"]
    {
      Lookup(doc, "General", "Name")
    }

    /** The "Type" key of section "General", the registered name of the resource's type. */
    function GetType(): (r: Option<string>)
      ensures r.Some? <==> "General" in doc && "Type" in doc["General"]
      ensures r.Some? ==> r.value == doc["General"]["Type"]
    {
      Lookup(doc, "General", "Type")
    }

    /** The "Path" key of section "General", taken relative to the info file's folder. */
    function GetPath(): (r: Option<string>)
      ensures r.Some? <==> Lookup(doc, "General", "Path").Some?
      ensures r.Some? ==> r.value == folder + Lookup(doc, "General", "Path").value
    {
      match Lookup(doc, "General", "Path")
      case None => None
      case Some(p) => Some((if folder == "" then "" else folder) + p)
    }

    /** Key `name` of section "Info". */
    function GetInfo(name: string): (r: Option<string>)
      ensures r.Some? <==> "Info" in doc && name in doc["Info"]
      ensures r.Some? ==> r.value == doc["Info"][name]
    {
      Lookup(doc, "Info", name)
    }
  }

  /** The info read from an info file at `dir\file` resolves its path in `dir`. */
  lemma PathBesideInfoFile(doc: Doc, dir: string, file: string)
    requires Free(file, '\\') && "General" in doc && "Path" in doc["General"]
    ensures ResourceInfo(doc, Folder(dir + "\\" + file)).GetPath() == Some(dir + "\\" + doc["General"]["Path"])
  {
    FolderOfFile(dir, file);
  }

  /** A loaded resource: the registered type it was created as, and the info it was loaded from. */
  class Resource {
    const kind: string
    var loadedFrom: Option<ResourceInfo>

    constructor(kind: string)
      ensures this.kind == kind && loadedFrom == None
    {
      this.kind := kind;
      loadedFrom := None;
    }

    method Load(info: ResourceInfo)
      modifies this
      ensures loadedFrom == Some(info)
    {
      loadedFrom := Some(info);
    }
  }

  /**
   * The class hierarchy of the registered resource types: `bases[k]` holds
   * every class that type `k` derives from, directly or not. It is well formed
   * when it is transitive and `Resource` is its root.
   */
  ghost predicate Hierarchy(bases: map<string, set<string>>)
  {
    && (RESOURCE_BASE in bases ==> bases[RESOURCE_BASE] == {})
    && forall k, a | k in bases && a in bases[k] :: a in bases ==> bases[a] <= bases[k]
  }

  /**
   * `Resource::As<T>`: `dynamic_cast` to `T`, where a failed cast is an error.
   * It succeeds when `T` is the resource's own type, a base of it, or
   * `Resource` itself, from which every resource type derives.
   */
  function As(r: Resource, kind: string, bases: map<string, set<string>>): (o: Option<Resource>)
    ensures o.Some? <==> kind == r.kind || kind == RESOURCE_BASE || (r.kind in bases && kind in bases[r.kind])
    ensures o.Some? ==> o.value == r
  {
    if kind == r.kind || kind == RESOURCE_BASE || (r.kind in bases && kind in bases[r.kind]) then Some(r) else None
  }

  /**
   * A cast that succeeded to type `a` also succeeds to every base of `a`: the
   * object is still of its dynamic type, which derives from `a`'s bases too.
   */
  lemma CastToBaseOfCast(r: Resource, a: string, b: string, bases: map<string, set<string>>)
    requires Hierarchy(bases)
    requires As(r, a, bases).Some? && a in bases && b in bases[a]
    ensures As(r, b, bases) == Some(r)
  {
  }

  /** Casting the result of a cast is the same as casting the resource itself. */
  lemma CastOfCast(r: Resource, a: string, b: string, bases: map<string, set<string>>)
    requires As(r, a, bases).Some?
    ensures As(As(r, a, bases).value, b, bases) == As(r, b, bases)
  {
  }

  /** The base type name under which resource types are registered. */
  const RESOURCE_BASE: string := "Resource"

  /** How `LoadSingleInfo` ends: the file could not be opened (a warning), the info was added, its name was taken (a warning), or the read failed. */
  datatype InfoLoad = NotOpened | Added | DuplicateName | Failed(error: string)

  /** How `Get` ends: the resource, or one of the errors for an unknown name, a missing type key, or an unregistered type. */
  datatype Fetch = Fetched(resource: Resource) | UnknownName | MissingType | UnregisteredType

  class ResourcesManager {
    /** `m_resourcesInfo`. */
    var infos: map<string, ResourceInfo>
    /** The `weak_ptr` each info holds to the resource last created from it. */
    var loaded: map<string, Resource>

    constructor()
      ensures infos == map[] && loaded == map[]
    {
      infos := map[];
      loaded := map[];
    }

    /**
     * `LoadSingleInfo` of the file at `path`, whose text is `file` (`None`
     * when it cannot be opened): the info goes under its name unless that
     * name is taken, in which case the first one stays.
     */
    method LoadSingleInfo(path: string, file: Option<string>) returns (r: InfoLoad)
      modifies this
      ensures loaded == old(loaded)
      ensures file.None? ==> r == NotOpened && infos == old(infos)
      ensures file.Some? ==>
        var parsed := Parse(Lines(file.value), map[], None);
        var info := ResourceInfo(parsed.doc, Folder(path));
        if !parsed.ok then r.Failed? && infos == old(infos)
        else if info.GetName().None? then r.Failed? && infos == old(infos)
        else if info.GetName().value in old(infos) then r == DuplicateName && infos == old(infos)
        else r == Added && infos == old(infos)[info.GetName().value := info]
    {
      if file.None? {
        return NotOpened;
      }
      var folder := Folder(path);
      var parsed := Parse(Lines(file.value), map[], None);
      if !parsed.ok {
        return Failed("Failed to deserialize INI document, key outside of section");
      }
      var info := ResourceInfo(parsed.doc, folder);
      var name := info.GetName();
      if name.None? {
        return Failed("Resource info has no name");
      }
      if name.value in infos {
        return DuplicateName;
      }
      infos := infos[name.value := info];
      r := Added;
    }

    /**
     * `Get`: a resource still owned elsewhere (in `live`) is returned as it
     * is; otherwise one is created through the registry, loaded from its info
     * and remembered.
     */
    method Get(name: string, registries: map<string, map<string, string>>, live: set<Resource>) returns (f: Fetch)
      modifies this
      ensures infos == old(infos)
      ensures name !in infos ==> f == UnknownName && loaded == old(loaded)
      ensures name in infos && name in old(loaded) && old(loaded)[name] in live ==>
        f == Fetched(old(loaded)[name]) && loaded == old(loaded)
      ensures name in infos && !(name in old(loaded) && old(loaded)[name] in live) ==>
        var kind := infos[name].GetType();
        if kind.None? then f == MissingType && loaded == old(loaded)
        else if Registrable.Create(registries, RESOURCE_BASE, kind.value).None? then f == UnregisteredType && loaded == old(loaded)
        else (f.Fetched? && fresh(f.resource)
              && f.resource.kind == Registrable.Create(registries, RESOURCE_BASE, kind.value).value
              && f.resource.loadedFrom == Some(infos[name])
              && loaded == old(loaded)[name := f.resource])
    {
      if name !in infos {
        return UnknownName;
      }
      if name in loaded && loaded[name] in live {
        return Fetched(loaded[name]);
      }
      var kind := infos[name].GetType();
      if kind.None? {
        return MissingType;
      }
      var created := Registrable.Create(registries, RESOURCE_BASE, kind.value);
      if created.None? {
        return UnregisteredType;
      }
      var rsc := new Resource(created.value);
      rsc.Load(infos[name]);
      loaded := loaded[name := rsc];
      f := Fetched(rsc);
    }
  }
}
