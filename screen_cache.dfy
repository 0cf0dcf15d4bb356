/** The per-cell viewer cache of `getCellApplicationClass`: the viewers the
    screen keeps open, keyed by cell id, and when a cached one is shown
    again instead of a new one. */
module ScreenCache {
  import opened Basics

  /** A cached viewer: the uuid of the document it shows, the name of its
      class (`constructor.name`) and its application id. */
  datatype Viewer = Viewer(uuid: string, className: string, appId: string)

  /** The branch of the creation switch a document takes, in the switch's
      order: a journal entry; a text page with a ProseMirror sheet; any other
      journal page; a roll table; an actor with a V2 sheet; an item with a V2
      document sheet; anything else. */
  datatype DocShape = JournalEntryDoc | TextPage | OtherPage | RollTableDoc | ActorV2 | ItemV2 | OtherDoc

  /** The document a uuid resolves to: its uuid and id, the branch it takes,
      the name of its sheet's class (None when it has no sheet), and the id
      a legacy sheet of the last branch gets. */
  datatype ResolvedDoc = ResolvedDoc(uuid: string, id: string, shape: DocShape, sheetClass: Option<string>, legacyAppId: string)

  /** The three viewer classes this module defines. */
  const CompactJournalEntryClass := "CompactJournalEntryDisplay"
  const CompactJournalEntryPageClass := "CompactJournalEntryPageDisplay"
  const CompactRollTableClass := "CompactRollTableDisplay"

  predicate IsCompactClass(name: string) {
    name == CompactJournalEntryClass || name == CompactJournalEntryPageClass || name == CompactRollTableClass
  }

  /** `s.includes(t)` */
  predicate Contains(s: string, t: string) {
    |t| <= |s| && (s[..|t|] == t || (|s| > 0 && Contains(s[1..], t)))
  }

  /** The prefix an actor viewer's id must contain to be reused. */
  function ActorIdPrefix(dndNpcStatBlock: bool): string {
    if dndNpcStatBlock then "gmscreen-npc-" else "gmscreen-actor-"
  }

  /** The viewer the creation switch builds for `doc`, whose sheet class is
      named `sheetClass`: the module's own compact classes for journal
      entries, non-text pages and roll tables, the document's sheet class
      otherwise. */
  function NewViewer(doc: ResolvedDoc, sheetClass: string, dndNpcStatBlock: bool): (v: Viewer)
    ensures v.uuid == doc.uuid
    ensures doc.shape in {JournalEntryDoc, OtherPage, RollTableDoc} ==> IsCompactClass(v.className)
    ensures doc.shape !in {JournalEntryDoc, OtherPage, RollTableDoc} ==> v.className == sheetClass
    ensures doc.shape == ActorV2 ==> Contains(v.appId, ActorIdPrefix(dndNpcStatBlock))
  {
    match doc.shape
    case JournalEntryDoc => Viewer(doc.uuid, CompactJournalEntryClass, "gmscreen-journal-" + doc.id)
    case TextPage => Viewer(doc.uuid, sheetClass, "gmscreen-text-" + doc.id)
    case OtherPage => Viewer(doc.uuid, CompactJournalEntryPageClass, "gmscreen-journal-page-" + doc.id)
    case RollTableDoc => Viewer(doc.uuid, CompactRollTableClass, "gmscreen-rolltable-" + doc.id)
    case ActorV2 =>
      ContainsPrefix(ActorIdPrefix(dndNpcStatBlock), doc.id);
      Viewer(doc.uuid, sheetClass, ActorIdPrefix(dndNpcStatBlock) + doc.id)
    case ItemV2 => Viewer(doc.uuid, sheetClass, "gmscreen-item-" + doc.id)
    case OtherDoc => Viewer(doc.uuid, sheetClass, doc.legacyAppId)
  }

  /** What a cell is given: the cached viewer, a new one, or none. */
  datatype Outcome = Reused(viewer: Viewer) | Created(viewer: Viewer) | NoViewer

  /** The cache after one lookup, and what the cell is given. */
  datatype CacheStep = CacheStep(apps: map<string, Viewer>, outcome: Outcome)

  /** `getCellApplicationClass(entityUuid, cellId, dndNpc, dndNpcStatBlock)`
      once the uuid resolved to `doc` (None when it resolved to nothing). */
  function CellViewer(apps: map<string, Viewer>, cellId: string, entityUuid: string, doc: Option<ResolvedDoc>,
                      dndNpc: bool, dndNpcStatBlock: bool): CacheStep
  {
    if doc.None? then CacheStep(apps - {cellId}, NoViewer)
    else
      var d := doc.value;
      // a cached viewer of another document is closed
      var a1 := if cellId in apps && apps[cellId].uuid != entityUuid then apps - {cellId} else apps;
      // a cached viewer of another class than the document's sheet is closed
      var a2 := if cellId in a1 && Some(a1[cellId].className) != d.sheetClass then a1 - {cellId} else a1;
      if cellId in a2 && (!dndNpc || Contains(a2[cellId].appId, ActorIdPrefix(dndNpcStatBlock))) then
        CacheStep(a2, Reused(a2[cellId]))
      else if d.sheetClass.None? then CacheStep(a2, NoViewer)
      else
        var v := NewViewer(d, d.sheetClass.value, dndNpcStatBlock);
        CacheStep(a2[cellId := v], Created(v))
  }

  /** Only the looked-up cell's entry changes. */
  lemma CellViewerLocal(apps: map<string, Viewer>, cellId: string, entityUuid: string, doc: Option<ResolvedDoc>,
                        dndNpc: bool, dndNpcStatBlock: bool)
    ensures var r := CellViewer(apps, cellId, entityUuid, doc, dndNpc, dndNpcStatBlock);
      forall c :: c != cellId ==> (c in r.apps <==> c in apps) && (c in apps ==> r.apps[c] == apps[c])
  {
  }

  /** A uuid that resolves to nothing closes and drops the cell's viewer. */
  lemma CellViewerMissingDocument(apps: map<string, Viewer>, cellId: string, entityUuid: string, dndNpc: bool, dndNpcStatBlock: bool)
    ensures var r := CellViewer(apps, cellId, entityUuid, None, dndNpc, dndNpcStatBlock);
      r.outcome == NoViewer && r.apps == apps - {cellId}
  {
  }

  /** The cached viewer is reused exactly when it shows the cell's uuid, has
      the class of the document's sheet and, for an NPC, was built for the
      same stat-block setting; a reused viewer leaves the cache unchanged,
      and whatever the cell is given afterwards is what the cache holds. */
  lemma CellViewerReuse(apps: map<string, Viewer>, cellId: string, entityUuid: string, doc: ResolvedDoc,
                        dndNpc: bool, dndNpcStatBlock: bool)
    ensures var r := CellViewer(apps, cellId, entityUuid, Some(doc), dndNpc, dndNpcStatBlock);
      && (r.outcome.Reused? <==>
            cellId in apps && apps[cellId].uuid == entityUuid && Some(apps[cellId].className) == doc.sheetClass
            && (!dndNpc || Contains(apps[cellId].appId, ActorIdPrefix(dndNpcStatBlock))))
      && (r.outcome.Reused? ==> r.apps == apps && r.outcome.viewer == apps[cellId])
      && (r.outcome.NoViewer? <==> !r.outcome.Reused? && doc.sheetClass.None?)
      && (r.outcome.NoViewer? ==> cellId !in r.apps)
      && (!r.outcome.NoViewer? ==> cellId in r.apps && r.apps[cellId] == r.outcome.viewer)
  {
  }

  lemma {:induction false} ContainsPrefix(p: string, rest: string)
    ensures Contains(p + rest, p)
  {
    assert (p + rest)[..|p|] == p;
  }

  /** Looking a cell up twice for the same document: the module's compact
      viewers (journal entries, non-text pages, roll tables) are never
      reused, because their class is never the document's sheet class;
      a viewer built from the sheet class itself is reused, provided the
      document's uuid is the cell's uuid. */
  lemma SecondLookup(apps: map<string, Viewer>, cellId: string, doc: ResolvedDoc, dndNpc: bool, dndNpcStatBlock: bool)
    requires doc.sheetClass.Some? && !IsCompactClass(doc.sheetClass.value)
    ensures var first := CellViewer(apps, cellId, doc.uuid, Some(doc), dndNpc, dndNpcStatBlock);
      var second := CellViewer(first.apps, cellId, doc.uuid, Some(doc), dndNpc, dndNpcStatBlock);
      && (first.outcome.Created? && doc.shape in {JournalEntryDoc, OtherPage, RollTableDoc} ==> second.outcome.Created?)
      && (first.outcome.Created? && doc.shape in {TextPage, ItemV2, OtherDoc} && !dndNpc ==> second.outcome.Reused?)
      && (first.outcome.Created? && doc.shape == ActorV2 ==> second.outcome.Reused?)
      && (first.outcome.Reused? ==> second == first)
  {
  }
}
