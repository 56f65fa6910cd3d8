/** `BaseStoreEmptyFileManager`
    (backend/WebDav/Base/BaseStoreEmptyFileManager.cs): the zero-byte
    placeholder files a WebDAV client creates before uploading, kept per
    collection in a process-wide registry.

    A manager is the sequence of its placeholder names in insertion order
    (the concurrent dictionary's enumeration order is unspecified); a
    placeholder is identified by its name alone. */
module EmptyFileManager {
  import opened Wrappers

  /** `BaseStoreEmptyFile`: an empty file known only by name. */
  datatype EmptyFile = EmptyFile(name: string)

  datatype Manager = Manager(names: seq<string>)

  predicate Distinct(names: seq<string>) {
    forall i, j :: 0 <= i < j < |names| ==> names[i] != names[j]
  }

  /** No name is registered twice. */
  predicate Valid(m: Manager) {
    Distinct(m.names)
  }

  const Empty: Manager := Manager([])

  /** The registry of managers, by collection key. */
  type Registry = map<string, Manager>

  /** The manager of a key, without registering it. */
  function ManagerOf(registry: Registry, uuid: string): Manager {
    if uuid in registry then registry[uuid] else Empty
  }

  /** `GetEmptyFileManager`: the registered manager, or a fresh empty one
      that is registered from then on. */
  function GetEmptyFileManager(registry: Registry, uuid: string): (r: (Registry, Manager))
    ensures uuid in r.0 && r.0[uuid] == r.1 && r.1 == ManagerOf(registry, uuid)
    ensures forall k :: k in registry ==> k in r.0 && r.0[k] == registry[k]
    ensures forall k :: k in r.0 ==> k in registry || k == uuid
  {
    if uuid in registry then (registry, registry[uuid])
    else (registry[uuid := Empty], Empty)
  }

  /** The same key always yields the same manager, and asking twice
      registers nothing new. */
  lemma ManagerMemoised(registry: Registry, uuid: string)
    ensures var (reg1, m1) := GetEmptyFileManager(registry, uuid);
            var (reg2, m2) := GetEmptyFileManager(reg1, uuid);
            m2 == m1 && reg2 == reg1
    ensures forall k :: ManagerOf(GetEmptyFileManager(registry, uuid).0, k) == ManagerOf(registry, k)
  {
  }

  /** `Get`: the placeholder of that name, or null. */
  function Get(m: Manager, name: string): (r: Option<EmptyFile>)
    ensures r.Some? <==> name in m.names
    ensures r.Some? ==> r.value.name == name
  {
    if name in m.names then Some(EmptyFile(name)) else None
  }

  /** `Add`: registers the file unless its name is already taken. */
  function Add(m: Manager, file: EmptyFile): (r: Manager)
    requires Valid(m)
    ensures Valid(r)
    ensures file.name in m.names ==> r == m
    ensures file.name !in m.names ==> r.names == m.names + [file.name]
  {
    if file.name in m.names then m else Manager(m.names + [file.name])
  }

  /** The sequence without `name`, order kept. */
  function Without(names: seq<string>, name: string): (r: seq<string>)
    ensures forall x :: x in r <==> x in names && x != name
    ensures name !in names ==> r == names
    ensures |r| <= |names|
  {
    if |names| == 0 then []
    else (if names[0] == name then [] else [names[0]]) + Without(names[1..], name)
  }

  lemma {:induction false} WithoutValid(names: seq<string>, name: string)
    requires Distinct(names)
    ensures Distinct(Without(names, name))
  {
    if |names| > 0 {
      WithoutValid(names[1..], name);
      var rest := Without(names[1..], name);
      forall k | 0 <= k < |rest|
        ensures rest[k] != names[0]
      {
        assert rest[k] in rest;
        var j :| 0 <= j < |names[1..]| && names[1..][j] == rest[k];
        assert names[j + 1] == rest[k];
      }
      var r := Without(names, name);
      if names[0] != name {
        assert r == [names[0]] + rest;
        forall i, j | 0 <= i < j < |r|
          ensures r[i] != r[j]
        {
          if i > 0 {
            assert r[i] == rest[i - 1] && r[j] == rest[j - 1];
            assert rest[i - 1] != rest[j - 1];
          } else {
            assert r[i] == names[0] && r[j] == rest[j - 1];
          }
        }
      }
    }
  }

  /** `Remove`: whether a placeholder of that name was registered; it is
      gone afterwards. */
  function Remove(m: Manager, name: string): (r: (Manager, bool))
    requires Valid(m)
    ensures Valid(r.0)
    ensures r.1 <==> name in m.names
    ensures name !in r.0.names
    ensures forall x :: x != name ==> (x in r.0.names <==> x in m.names)
    ensures !r.1 ==> r.0 == m
  {
    WithoutValid(m.names, name);
    (Manager(Without(m.names, name)), name in m.names)
  }

  /** A placeholder added under a fresh name can be found and then
      removed, which restores the manager exactly. */
  lemma {:induction false} AddThenRemove(m: Manager, file: EmptyFile)
    requires Valid(m) && file.name !in m.names
    ensures Get(Add(m, file), file.name) == Some(file)
    ensures Remove(Add(m, file), file.name) == (m, true)
  {
    WithoutAppend(m.names, file.name);
  }

  lemma {:induction false} WithoutAppend(names: seq<string>, name: string)
    requires name !in names
    ensures Without(names + [name], name) == names
  {
    if |names| > 0 {
      WithoutAppend(names[1..], name);
      assert (names + [name])[1..] == names[1..] + [name];
    }
  }
}
