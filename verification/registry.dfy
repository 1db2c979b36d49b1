/** The adapter registry: which storage record serves a request, which
    adapter class a record names, and the context manager that hands out an
    adapter and closes it on every exit. */
module Registry {
  import opened Common
  import opened Models
  import Paginator

  // -------------------------------------------------------------------
  // Resolving the storage record
  // -------------------------------------------------------------------

  /** Who asks: an anonymous visitor (or no user at all), or a signed-in
      user by id. */
  datatype Requester = Anonymous | Authenticated(id: nat)

  /** `.first()` of a filter: the position of the first record that
      satisfies `p`. */
  function FirstMatch<T>(recs: seq<T>, p: T -> bool): (r: Option<nat>)
    ensures r.Some? ==> r.value < |recs| && p(recs[r.value]) && forall j :: 0 <= j < r.value ==> !p(recs[j])
    ensures r.None? ==> forall j :: 0 <= j < |recs| ==> !p(recs[j])
  {
    if recs == [] then None
    else if p(recs[0]) then Some(0)
    else if FirstMatch(recs[1..], p).None? then None
    else Some(FirstMatch(recs[1..], p).value + 1)
  }

  /** The record the request itself selects, before any fallback. */
  function Requested(recs: seq<StorageRecord>, source: Option<string>, requester: Requester): Option<nat> {
    match requester
    case Authenticated(id) =>
      if Truthy(source) then FirstMatch(recs, (r: StorageRecord) => r.user == id && r.source == source.value)
      else FirstMatch(recs, (r: StorageRecord) => r.user == id && r.isDefault)
    case Anonymous =>
      if Truthy(source) then FirstMatch(recs, (r: StorageRecord) => r.source == source.value)
      else None
  }

  /** The storage record `get_storage_service` uses: the requested one,
      else the first record of the default source, else an error. */
  function Resolve(recs: seq<StorageRecord>, source: Option<string>, requester: Requester, defaultSource: string): (r: Result<StorageRecord>)
    ensures r.Ok? ==> r.value in recs
    ensures r.Err? ==> r.error == ConfigurationNotFound
    ensures Requested(recs, source, requester).Some? ==> r == Ok(recs[Requested(recs, source, requester).value])
    ensures Requested(recs, source, requester).None? ==>
      && (r.Ok? <==> exists i :: 0 <= i < |recs| && recs[i].source == defaultSource)
      && (r.Ok? ==> r.value.source == defaultSource)
  {
    match Requested(recs, source, requester)
    case Some(i) => Ok(recs[i])
    case None =>
      match FirstMatch(recs, (r: StorageRecord) => r.source == defaultSource)
      case Some(i) => Ok(recs[i])
      case None => Err(ConfigurationNotFound)
  }

  /** The lookup order in terms of the records: a signed-in user with a
      source gets their own record of that source, a signed-in user alone
      gets their default record, a source alone gets the record of that
      source; whichever is asked, a miss falls back to the default source. */
  lemma ResolveOrder(recs: seq<StorageRecord>, source: string, id: nat, defaultSource: string)
    requires source != ""
    ensures (exists i :: 0 <= i < |recs| && recs[i].user == id && recs[i].source == source) ==>
      var r := Resolve(recs, Some(source), Authenticated(id), defaultSource);
      r.Ok? && r.value.user == id && r.value.source == source
    ensures (exists i :: 0 <= i < |recs| && recs[i].user == id && recs[i].isDefault) ==>
      var r := Resolve(recs, None, Authenticated(id), defaultSource);
      r.Ok? && r.value.user == id && r.value.isDefault
    ensures (exists i :: 0 <= i < |recs| && recs[i].source == source) ==>
      var r := Resolve(recs, Some(source), Anonymous, defaultSource);
      r.Ok? && r.value.source == source
    ensures (forall i :: 0 <= i < |recs| ==> recs[i].user != id || recs[i].source != source) ==>
      Resolve(recs, Some(source), Authenticated(id), defaultSource) == Resolve(recs, None, Anonymous, defaultSource)
  {
  }

  /** A signed-in user's request ignores every other user's records, and
      the source of the record returned can differ from the one asked for. */
  lemma ResolveFallsBackToDefault(u: StorageRecord, d: StorageRecord, id: nat)
    requires u.user != id && u.source == "mine" && d.source == "main"
    ensures Resolve([u, d], Some("mine"), Authenticated(id), "main") == Ok(d)
    ensures Resolve([u, d], Some("mine"), Anonymous, "main") == Ok(u)
    ensures Resolve([u], Some("mine"), Authenticated(id), "main") == Err(ConfigurationNotFound)
  {
    assert [u, d][1..] == [d] && [d][1..] == [] && [u][1..] == [];
    assert "mine" != "main" by { assert "mine"[1] != "main"[1]; }
    assert Requested([u, d], Some("mine"), Authenticated(id)).None?;
    assert FirstMatch([u, d], (r: StorageRecord) => r.source == "main") == Some(1);
  }

  /** With sources unique, asking for a source anonymously returns the one
      record of that source. */
  lemma ResolveBySourceIsUnique(recs: seq<StorageRecord>, i: nat, defaultSource: string)
    requires WellFormedStorages(recs) && i < |recs| && recs[i].source != ""
    ensures Resolve(recs, Some(recs[i].source), Anonymous, defaultSource) == Ok(recs[i])
  {
    var k := Requested(recs, Some(recs[i].source), Anonymous);
    assert k.Some?;
  }

  // -------------------------------------------------------------------
  // Adapter classes and service names
  // -------------------------------------------------------------------

  datatype AdapterClass = AdapterClass(name: string, verboseName: string)

  const Suffix := "Adapter"

  /** The subclasses of `BaseAdapter`, in the order their modules are
      imported. */
  const Subclasses: seq<AdapterClass> := [
    AdapterClass("DjangoServerAdapter", "Микросервис заметок"),
    AdapterClass("FirestoreAdapter", "Firestore"),
    AdapterClass("GithubAdapter", "Github"),
    AdapterClass("TypesenseAdapter", "Typesense")]

  /** The adapter classes visible in the registry module's globals: the
      base class and its four subclasses. */
  const GlobalClasses: seq<string> := ["BaseAdapter", "DjangoServerAdapter", "FirestoreAdapter", "GithubAdapter", "TypesenseAdapter"]

  /** Python's `s[:-k]`: `s` without its last k characters. A k of 0 or
      beyond the length gives the empty string (`s[:-0]` is `s[:0]`). */
  function DropLast(s: string, k: nat): (r: string)
    ensures r <= s
    ensures |r| == if 0 < k <= |s| then |s| - k else 0
  {
    if 0 < k <= |s| then s[..|s| - k] else ""
  }

  /** Every class in the registry's globals is named with the suffix. */
  lemma GlobalClassesNamedWithSuffix(c: string)
    requires c in GlobalClasses
    ensures c == DropLast(c, |Suffix|) + Suffix
  {
    var k :| 0 <= k < |GlobalClasses| && GlobalClasses[k] == c;
    assert c[|c| - |Suffix|..] == Suffix by {
      if k == 0 {
      } else if k == 1 {
      } else if k == 2 {
      } else if k == 3 {
      } else {
      }
    }
    assert c == c[..|c| - |Suffix|] + c[|c| - |Suffix|..];
  }

  /** `service_name_to_class`: the global named by the service name and the
      suffix; any other name is a KeyError. */
  function ServiceNameToClass(serviceName: string): (r: Result<string>)
    ensures r.Ok? ==> r.value in GlobalClasses && DropLast(r.value, |Suffix|) == serviceName
    ensures r.Err? ==> r.error == MissingKey
    ensures r.Err? <==> forall c :: c in GlobalClasses ==> DropLast(c, |Suffix|) != serviceName
  {
    var name := serviceName + Suffix;
    assert DropLast(name, |Suffix|) == serviceName by {
      assert name[..|serviceName|] == serviceName;
    }
    assert name !in GlobalClasses ==> forall c :: c in GlobalClasses ==> DropLast(c, |Suffix|) != serviceName by {
      forall c | c in GlobalClasses && DropLast(c, |Suffix|) == serviceName ensures name in GlobalClasses {
        GlobalClassesNamedWithSuffix(c);
      }
    }
    if name in GlobalClasses then Ok(name) else Err(MissingKey)
  }

  /** `get_service_names`: each subclass's name without its suffix, with the
      class itself (by name) or its display name. */
  method GetServiceNames(addClass: bool) returns (names: seq<(string, string)>)
    ensures |names| == |Subclasses|
    ensures forall k :: 0 <= k < |Subclasses| ==>
      names[k] == (DropLast(Subclasses[k].name, |Suffix|), if addClass then Subclasses[k].name else Subclasses[k].verboseName)
  {
    names := [];
    var k := 0;
    while k < |Subclasses|
      invariant 0 <= k <= |Subclasses|
      invariant |names| == k
      invariant forall j :: 0 <= j < k ==>
        names[j] == (DropLast(Subclasses[j].name, |Suffix|), if addClass then Subclasses[j].name else Subclasses[j].verboseName)
    {
      var subclass := Subclasses[k];
      names := names + [(DropLast(subclass.name, 7), if addClass then subclass.name else subclass.verboseName)];
      k := k + 1;
    }
  }

  /** Every listed service name maps back to its own class, and no two
      classes share a service name. */
  lemma ServiceNamesRoundTrip(k: nat)
    requires k < |Subclasses|
    ensures EndsWith(Subclasses[k].name, Suffix)
    ensures ServiceNameToClass(DropLast(Subclasses[k].name, |Suffix|)) == Ok(Subclasses[k].name)
    ensures DropLast(Subclasses[k].name, |Suffix|) == ["DjangoServer", "Firestore", "Github", "Typesense"][k]
  {
    var service := ["DjangoServer", "Firestore", "Github", "Typesense"][k];
    assert Subclasses[k].name == service + Suffix == GlobalClasses[k + 1] by {
      if k == 0 {
      } else if k == 1 {
      } else if k == 2 {
      } else {
      }
    }
    DropSuffix(service);
  }

  lemma DropSuffix(service: string)
    ensures EndsWith(service + Suffix, Suffix)
    ensures DropLast(service + Suffix, |Suffix|) == service
  {
    assert (service + Suffix)[..|service|] == service;
  }

  /** The base class is named too: a record naming the service "Base"
      selects `BaseAdapter`, but building it with the uuid raises TypeError
      (`Open` fails) before any of its stubs is reached. */
  lemma BaseServiceName()
    ensures ServiceNameToClass("Base") == Ok("BaseAdapter")
    ensures ServiceNameToClass("Github") == Ok("GithubAdapter")
    ensures ServiceNameToClass("github") == Err(MissingKey)
  {
    assert "Base" + Suffix == GlobalClasses[0];
    assert "Github" + Suffix == GlobalClasses[3];
    assert "github" + Suffix !in GlobalClasses by {
      forall k | 0 <= k < |GlobalClasses| ensures GlobalClasses[k] != "github" + Suffix {
        assert GlobalClasses[k][0] != 'g';
      }
    }
  }

  // -------------------------------------------------------------------
  // get_storage_service
  // -------------------------------------------------------------------

  /** What the context manager builds from the resolved record: the adapter
      class, the arguments it is built with, and the source it yields. */
  datatype Opened = Opened(className: string, uuid: string, credentials: map<string, string>, source: string)

  /** The keyword parameters of `GithubAdapter.__init__` after the uuid. */
  const GithubParameters: set<string> := {"owner", "repo", "branch", "directory"}

  /** Whether `cls(storage_uuid, **credentials)` returns an adapter.
      `DjangoServerAdapter.__init__` takes the uuid alone and
      `GithubAdapter.__init__` the uuid and exactly its four keywords.
      `BaseAdapter` defines no `__init__`, and the Firestore and Typesense
      adapters pass the uuid on to `object.__init__`: all three raise
      TypeError whatever the credentials. */
  predicate Constructible(className: string, credentials: map<string, string>) {
    || (className == "DjangoServerAdapter" && credentials == map[])
    || (className == "GithubAdapter" && credentials.Keys == GithubParameters)
  }

  /** The three services whose adapter class exists but cannot be built. */
  lemma UnbuildableService(service: string)
    requires service in {"Base", "Firestore", "Typesense"}
    ensures ServiceNameToClass(service) == Ok(service + Suffix)
    ensures service + Suffix != "DjangoServerAdapter" && service + Suffix != "GithubAdapter"
  {
    if service == "Base" {
      assert service + Suffix == GlobalClasses[0];
    } else if service == "Firestore" {
      assert service + Suffix == GlobalClasses[2];
    } else {
      assert service + Suffix == GlobalClasses[4];
    }
  }

  function Open(recs: seq<StorageRecord>, source: Option<string>, requester: Requester, defaultSource: string): (r: Result<Opened>)
    ensures r.Ok? ==> Resolve(recs, source, requester, defaultSource).Ok?
    ensures r.Ok? ==>
      var rec := Resolve(recs, source, requester, defaultSource).value;
      r.value == Opened(rec.service + Suffix, rec.uuid, rec.credentials, rec.source)
    ensures r.Ok? ==> r.value.className == "DjangoServerAdapter" || r.value.className == "GithubAdapter"
    ensures Resolve(recs, source, requester, defaultSource).Err? ==> r == Err(ConfigurationNotFound)
    ensures Resolve(recs, source, requester, defaultSource).Ok? &&
            Resolve(recs, source, requester, defaultSource).value.service in {"Base", "Firestore", "Typesense"} ==>
            r == Err(WrongArguments)
    ensures Resolve(recs, source, requester, defaultSource).Ok? &&
            Resolve(recs, source, requester, defaultSource).value.service == "DjangoServer" &&
            Resolve(recs, source, requester, defaultSource).value.credentials == map[] ==>
            r.Ok?
  {
    match Resolve(recs, source, requester, defaultSource)
    case Err(e) => Err(e)
    case Ok(rec) =>
      assert rec.service in {"Base", "Firestore", "Typesense"} ==>
        ServiceNameToClass(rec.service) == Ok(rec.service + Suffix) && !Constructible(rec.service + Suffix, rec.credentials) by {
        if rec.service in {"Base", "Firestore", "Typesense"} {
          UnbuildableService(rec.service);
        }
      }
      assert rec.service == "DjangoServer" ==> ServiceNameToClass(rec.service) == Ok("DjangoServerAdapter") by {
        if rec.service == "DjangoServer" {
          assert rec.service + Suffix == GlobalClasses[1];
        }
      }
      match ServiceNameToClass(rec.service)
      case Err(e) => Err(e)
      case Ok(className) =>
        if Constructible(className, rec.credentials) then Ok(Opened(className, rec.uuid, rec.credentials, rec.source))
        else Err(WrongArguments)
  }

  /** How the body of the `with` block left it. */
  datatype Exit = Finished | Raised(error: Error) | ReturnedEarly

  /** The adapter handed to the `with` block, as far as the context manager
      sees it: what it was built from and how often it was closed. */
  class Handle {
    const built: Opened
    var closeCount: nat

    constructor (built: Opened)
      ensures this.built == built && closeCount == 0
    {
      this.built := built;
      closeCount := 0;
    }

    method Close()
      modifies this
      ensures closeCount == old(closeCount) + 1
    {
      closeCount := closeCount + 1;
    }
  }

  /** `with get_storage_service(source, user) as (adapter, source): body`.
      Resolution fails before any adapter exists; otherwise the body runs
      with the new adapter and the `finally` clause closes it exactly once,
      whichever way the body exits, and the exit is passed on. */
  method WithStorageService(recs: seq<StorageRecord>, source: Option<string>, requester: Requester,
                            defaultSource: string, body: Opened -> Exit)
    returns (r: Result<Exit>, handle: Option<Handle>)
    ensures Open(recs, source, requester, defaultSource).Err? ==>
      r == Err(Open(recs, source, requester, defaultSource).error) && handle.None?
    ensures Open(recs, source, requester, defaultSource).Ok? ==>
      var built := Open(recs, source, requester, defaultSource).value;
      && handle.Some? && fresh(handle.value)
      && handle.value.built == built
      && handle.value.closeCount == 1
      && r == Ok(body(built))
  {
    var o := Open(recs, source, requester, defaultSource);
    if o.Err? {
      return Err(o.error), None;
    }
    var adapter := new Handle(o.value);
    var exit := body(o.value);
    adapter.Close();
    r, handle := Ok(exit), Some(adapter);
  }
}
