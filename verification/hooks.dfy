/** The lifecycle constants of `utils/constants.py` and the note hook of
    `utils/hooks.py`: an access check before the web editor edits or creates
    a note, and a link made after a note is created. */
module Hooks {
  import opened Common
  import Registry

  // Objects' lifecycle
  const BeforeCreate := 1
  const Created := 2
  const BeforeUpdate := 3
  const Updated := 4
  const BeforeEdit := 5
  const Edited := 6
  const BeforeDelete := 7
  const Deleted := 8

  // Context of the lifecycle
  const Web := 1
  const Api := 2

  const ProjectPrefix := ".project-"

  /** `standart_has_access`: the requester owns the adapter's storage, or
      the source is the default one. An anonymous visitor owns nothing. */
  predicate HasAccess(requester: Registry.Requester, storageOwner: nat, source: string, defaultSource: string): (r: bool)
    ensures source == defaultSource ==> r
    ensures requester.Anonymous? ==> (r <==> source == defaultSource)
    ensures requester.Authenticated? && source != defaultSource ==> (r <==> requester.id == storageOwner)
  {
    requester == Registry.Authenticated(storageOwner) || source == defaultSource
  }

  /** What the hook does. */
  datatype Effect =
    | NoEffect
    | Forbidden(lifecycle: int)             // Http403 raised before the edit or the creation
    | Link(title: string, target: string)   // the created note is linked to `target`

  /** The link target after a creation: the request's `link_to` when it is
      non-empty, else the source without its leading dot when the source is
      a project source, else none. */
  function LinkTarget(linkTo: Option<string>, source: string): (r: Option<string>)
    ensures Truthy(linkTo) ==> r == linkTo
    ensures !Truthy(linkTo) && StartsWith(source, ProjectPrefix) ==> r == Some(source[1..])
    ensures !Truthy(linkTo) && !StartsWith(source, ProjectPrefix) ==> r.None?
    ensures r.Some? ==> r.value != []
  {
    if Truthy(linkTo) then linkTo
    else if StartsWith(source, ProjectPrefix) then Some(source[1..])
    else None
  }

  /** `note_hook(lifecycle, context, note, adapter, request)`, with the note's
      source and title, the requester, the owner of the adapter's storage,
      the default source and the request's `link_to`. */
  function NoteHook(lifecycle: int, context: int, source: string, title: string, requester: Registry.Requester,
                    storageOwner: nat, defaultSource: string, linkTo: Option<string>): (r: Effect)
    ensures r.Forbidden? <==>
      context == Web && (lifecycle == BeforeEdit || lifecycle == BeforeCreate) && !HasAccess(requester, storageOwner, source, defaultSource)
    ensures r.Forbidden? ==> r.lifecycle == lifecycle
    ensures r.Link? <==> context == Web && lifecycle == Created && LinkTarget(linkTo, source).Some?
    ensures r.Link? ==> r == Link(title, LinkTarget(linkTo, source).value)
  {
    if lifecycle == BeforeEdit && context == Web then
      if !HasAccess(requester, storageOwner, source, defaultSource) then Forbidden(lifecycle) else NoEffect
    else if lifecycle == BeforeCreate && context == Web then
      if !HasAccess(requester, storageOwner, source, defaultSource) then Forbidden(lifecycle) else NoEffect
    else if lifecycle == Created && context == Web then
      match LinkTarget(linkTo, source)
      case Some(target) => Link(title, target)
      case None => NoEffect
    else NoEffect
  }

  /** Every lifecycle other than before-edit, before-create and created,
      and every call from the API, leaves the hook without effect. In
      particular the web editor's edit signals the hook with before-update,
      which the hook does not handle, so no access check guards an edit. */
  lemma OtherLifecyclesIgnored(lifecycle: int, context: int, source: string, title: string, requester: Registry.Requester,
                               storageOwner: nat, defaultSource: string, linkTo: Option<string>)
    requires context != Web || lifecycle !in {BeforeEdit, BeforeCreate, Created}
    ensures NoteHook(lifecycle, context, source, title, requester, storageOwner, defaultSource, linkTo) == NoEffect
  {
  }

  lemma EditSignalIsNotChecked(source: string, title: string, storageOwner: nat, defaultSource: string)
    ensures NoteHook(BeforeUpdate, Web, source, title, Registry.Anonymous, storageOwner, defaultSource, None) == NoEffect
    ensures !HasAccess(Registry.Anonymous, storageOwner, source, defaultSource) <==> source != defaultSource
  {
  }

  /** The owner may always edit and create; on the default source anyone
      may, even an anonymous visitor; anybody else on another source is
      refused. */
  lemma AccessMeaning(requester: Registry.Requester, storageOwner: nat, source: string, defaultSource: string)
    ensures HasAccess(Registry.Authenticated(storageOwner), storageOwner, source, defaultSource)
    ensures HasAccess(requester, storageOwner, defaultSource, defaultSource)
    ensures requester != Registry.Authenticated(storageOwner) && source != defaultSource ==>
      NoteHook(BeforeEdit, Web, source, "", requester, storageOwner, defaultSource, None) == Forbidden(BeforeEdit) &&
      NoteHook(BeforeCreate, Web, source, "", requester, storageOwner, defaultSource, None) == Forbidden(BeforeCreate)
  {
  }

  /** A note created in the `.project-42` storage is linked to `project-42`
      unless the request names another target. */
  lemma ProjectLink()
    ensures LinkTarget(None, ".project-42") == Some("project-42")
    ensures LinkTarget(Some(""), ".project-42") == Some("project-42")
    ensures LinkTarget(Some("task-7"), ".project-42") == Some("task-7")
    ensures LinkTarget(None, "project-42") == None
  {
    assert StartsWith(".project-42", ProjectPrefix);
    assert ".project-42"[1..] == "project-42";
    assert !StartsWith("project-42", ProjectPrefix) by {
      assert "project-42"[0] != ProjectPrefix[0];
    }
  }
}
