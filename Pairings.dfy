/**
 * A pairing links a host document to the mirror subdocument opened for one
 * of its template literals; the registry holds at most one pairing per host
 * document. The pairing's mutable state is the tracked range, the origin
 * tag, whether its listeners have been disposed (closed), and why. The
 * editor calls it makes are not modelled: their outcomes are parameters,
 * and the document contents are the subject of the `TextModel` lemmas.
 */
module Pairings {
  import opened Wrappers
  import opened Positions
  import opened Tracker
  import opened Origins

  /** Identity of an open text document. */
  type DocId = nat

  const ReloadingReason := "Reloading."
  const SourceModifiedReason := "Source document has been modified. This virtual editor can be closed."
  const SourceClosedReason := "Source document closed. This virtual document can be closed."
  const SubdocumentClosedReason := "Subdocument closed. This virtual document can be closed."
  const HostSyncFailedReason := "Source document could not be synced with subdocument. This virtual editor can be closed."
  const MirrorSyncFailedReason := "Subdocument could not be synced with original document. This virtual editor can be closed."
  const ShortcutReason := "Closed via shortcut. This virtual document can be closed."
  const DeactivatedReason := "Extension deactivated. This virtual document can be closed."

  /**
   * A registry entry: the do-nothing handle set while a pairing is being
   * set up, or the closing handle of a live pairing.
   */
  datatype Handle = Placeholder | Live(pairing: Pairing)

  /**
   * How a sync's editor edit went: the editor could not be shown (an
   * exception), the edit was refused (`editOk` false), or it was applied.
   */
  datatype EditOutcome = EditorUnavailable | EditRejected | EditApplied

  class Registry {
    /** The open pairings, by host document. */
    var active: map<DocId, Handle>

    function LivePairings(): set<Pairing>
      reads this
    {
      set d | d in active && active[d].Live? :: active[d].pairing
    }

    /** The pairing registered for `doc`, as a frame. */
    function PairingAt(doc: DocId): set<Pairing>
      reads this
    {
      if doc in active && active[doc].Live? then {active[doc].pairing} else {}
    }

    /** Every live entry is a well-formed, open pairing of that host, belonging to this registry. */
    predicate Valid()
      reads this, LivePairings()
    {
      forall d :: d in active && active[d].Live? ==>
        && active[d].pairing.host == d
        && active[d].pairing.registry == this
        && !active[d].pairing.closed
        && active[d].pairing.Valid()
    }

    constructor()
      ensures active == map[] && Valid()
    {
      active := map[];
    }

    /**
     * The start of an activation: any pairing already open for `doc` is
     * closed for reloading, and a placeholder handle takes its entry.
     */
    method Reserve(doc: DocId)
      requires Valid()
      modifies this, PairingAt(doc)
      ensures active == old(active)[doc := Placeholder]
      ensures doc in old(active) && old(active)[doc].Live? ==>
        var p := old(active)[doc].pairing;
        && p.closed && p.origin == Dispose && p.closeReason == Some(ReloadingReason)
        && p.range == old(p.range) && p.Valid()
        && p.hostSyncRequests == old(p.hostSyncRequests) && p.mirrorSyncRequests == old(p.mirrorSyncRequests)
      ensures Valid()
    {
      if doc in active && active[doc].Live? {
        var p := active[doc].pairing;
        p.Close(ReloadingReason);
      }
      active := active[doc := Placeholder];
    }

    /** The end of an activation: the pairing's own closing handle replaces the placeholder. */
    method Register(p: Pairing)
      requires Valid() && p.registry == this && p.Valid() && !p.closed
      modifies this
      ensures active == old(active)[p.host := Live(p)]
      ensures Valid()
    {
      active := active[p.host := Live(p)];
    }

    /**
     * Opening a template: reserve the host's entry, create the pairing with
     * the origin set to `Activate` (so the seeding edit of the mirror is not
     * echoed back), and register it.
     */
    method Open(host: DocId, mirror: DocId, range: Range) returns (p: Pairing)
      requires Valid() && host != mirror && range.WellFormed()
      modifies this, PairingAt(host)
      ensures fresh(p)
      ensures p.host == host && p.mirror == mirror && p.registry == this
      ensures p.range == range && p.origin == Activate && !p.closed && p.closeReason == None
      ensures p.hostSyncRequests == 0 && p.mirrorSyncRequests == 0
      ensures active == old(active)[host := Live(p)]
      ensures host in old(active) && old(active)[host].Live? ==>
        var q := old(active)[host].pairing;
        && q.closed && q.origin == Dispose && q.closeReason == Some(ReloadingReason)
        && q.range == old(q.range) && q.Valid()
        && q.hostSyncRequests == old(q.hostSyncRequests) && q.mirrorSyncRequests == old(q.mirrorSyncRequests)
      ensures Valid()
    {
      Reserve(host);
      p := new Pairing(this, host, mirror, range);
      Register(p);
    }

    /**
     * Closes every registered pairing with `reason`. Each close removes its
     * own entry; placeholders have nothing to close and stay.
     */
    method CloseAll(reason: string)
      requires Valid()
      modifies this, LivePairings()
      ensures active == map d | d in old(active) && old(active)[d].Placeholder? :: Placeholder
      ensures forall d :: d in old(active) && old(active)[d].Live? ==>
        var p := old(active)[d].pairing;
        && p.closed && p.origin == Dispose && p.closeReason == Some(reason)
        && p.range == old(p.range) && p.Valid()
        && p.hostSyncRequests == old(p.hostSyncRequests) && p.mirrorSyncRequests == old(p.mirrorSyncRequests)
      ensures Valid()
    {
      ghost var before := active;
      var todo := active.Keys;
      while todo != {}
        invariant Valid()
        invariant todo <= before.Keys
        invariant forall d :: d in active ==> d in before && active[d] == before[d]
        invariant forall d :: d in todo ==> d in active
        invariant forall d :: d in before && before[d].Placeholder? ==> d in active
        invariant forall d :: d in todo && before[d].Live? ==>
          var p := before[d].pairing;
          && p.range == old(p.range)
          && p.hostSyncRequests == old(p.hostSyncRequests) && p.mirrorSyncRequests == old(p.mirrorSyncRequests)
        invariant forall d :: d in before && before[d].Live? && d !in todo ==>
          var p := before[d].pairing;
          && d !in active && p.closed && p.origin == Dispose && p.closeReason == Some(reason)
          && p.range == old(p.range) && p.Valid()
          && p.hostSyncRequests == old(p.hostSyncRequests) && p.mirrorSyncRequests == old(p.mirrorSyncRequests)
        decreases |todo|
      {
        var d :| d in todo;
        if active[d].Live? {
          var p := active[d].pairing;
          p.Close(reason);
        }
        todo := todo - {d};
      }
      assert forall d :: d in active <==> d in before && before[d].Placeholder?;
    }

    /** The close-all command's handler. */
    method CloseViaShortcut()
      requires Valid()
      modifies this, LivePairings()
      ensures active == map d | d in old(active) && old(active)[d].Placeholder? :: Placeholder
      ensures forall d :: d in old(active) && old(active)[d].Live? ==>
        var p := old(active)[d].pairing;
        && p.closed && p.origin == Dispose && p.closeReason == Some(ShortcutReason)
        && p.range == old(p.range) && p.Valid()
        && p.hostSyncRequests == old(p.hostSyncRequests) && p.mirrorSyncRequests == old(p.mirrorSyncRequests)
      ensures Valid()
    {
      CloseAll(ShortcutReason);
    }

    /** Extension deactivation. */
    method Deactivate()
      requires Valid()
      modifies this, LivePairings()
      ensures active == map d | d in old(active) && old(active)[d].Placeholder? :: Placeholder
      ensures forall d :: d in old(active) && old(active)[d].Live? ==>
        var p := old(active)[d].pairing;
        && p.closed && p.origin == Dispose && p.closeReason == Some(DeactivatedReason)
        && p.range == old(p.range) && p.Valid()
        && p.hostSyncRequests == old(p.hostSyncRequests) && p.mirrorSyncRequests == old(p.mirrorSyncRequests)
      ensures Valid()
    {
      CloseAll(DeactivatedReason);
    }
  }

  class Pairing {
    const host: DocId
    const mirror: DocId
    const registry: Registry

    /** Where the template's content lies in the host document. */
    var range: Range
    var origin: Origin
    /** Set when the listeners are disposed: no later notification reaches the pairing. */
    var closed: bool
    var closeReason: Option<string>
    /** Calls of the throttled copy of the mirror into the host. */
    var hostSyncRequests: nat
    /** Calls of the throttled copy of the host's range into the mirror. */
    var mirrorSyncRequests: nat

    predicate Valid()
      reads this
    {
      range.WellFormed() && host != mirror
    }

    constructor(registry: Registry, host: DocId, mirror: DocId, range: Range)
      requires host != mirror && range.WellFormed()
      ensures this.registry == registry && this.host == host && this.mirror == mirror
      ensures this.range == range && origin == Activate && !closed && closeReason == None
      ensures hostSyncRequests == 0 && mirrorSyncRequests == 0
      ensures Valid()
    {
      this.registry := registry;
      this.host := host;
      this.mirror := mirror;
      this.range := range;
      origin := Activate;
      closed := false;
      closeReason := None;
      hostSyncRequests := 0;
      mirrorSyncRequests := 0;
    }

    /** Which of the pairing's documents a notification is about. */
    function TargetOf(doc: DocId): Target {
      if doc == mirror then MirrorDocument
      else if doc == host then HostDocument
      else OtherDocument
    }

    /**
     * Disposal: the tag becomes `Dispose`, the listeners are disposed and the
     * host's registry entry is removed. Closing the mirror's editor is not
     * modelled.
     */
    method Close(reason: string)
      requires Valid() && registry.Valid()
      modifies this, registry
      ensures origin == Dispose && closed && closeReason == Some(reason)
      ensures range == old(range)
      ensures hostSyncRequests == old(hostSyncRequests) && mirrorSyncRequests == old(mirrorSyncRequests)
      ensures registry.active == old(registry.active) - {host}
      ensures Valid() && registry.Valid()
    {
      origin := Dispose;
      closed := true;
      closeReason := Some(reason);
      registry.active := registry.active - {host};
    }

    /**
     * The change listener. After disposal nothing happens. Otherwise the
     * notification is classified by the origin tag: an echo consumes the tag,
     * a genuine mirror edit requests a host sync, and a genuine host edit is
     * tracked: an invalid batch closes the pairing with the range untouched,
     * a valid one moves the range change by change and requests one mirror
     * sync if some change fell inside it.
     */
    method OnTextChange(doc: DocId, changes: seq<Change>)
      requires Valid() && registry.Valid()
      modifies this, registry
      ensures old(closed) ==> unchanged(this) && registry.active == old(registry.active)
      ensures !old(closed) ==>
        var step := Classify(old(origin), TargetOf(doc));
        var tracking := step.reaction == TrackHostChange;
        && hostSyncRequests == old(hostSyncRequests) + (if step.reaction == RequestHostSync then 1 else 0)
        && if tracking && !BatchIsValid(old(range), changes) then
             && origin == Dispose && closed && closeReason == Some(SourceModifiedReason)
             && range == old(range) && mirrorSyncRequests == old(mirrorSyncRequests)
             && registry.active == old(registry.active) - {host}
           else
             var t := if tracking then TrackAll(old(range), changes) else Tracked(old(range), false);
             && origin == step.next && !closed && closeReason == old(closeReason)
             && range == t.range
             && mirrorSyncRequests == old(mirrorSyncRequests) + (if t.needsSync then 1 else 0)
             && registry.active == old(registry.active)
      ensures Valid() && registry.Valid()
    {
      if closed {
        return;
      }
      var step := Classify(origin, TargetOf(doc));
      origin := step.next;
      match step.reaction {
        case Ignore =>
        case ConsumeTag =>
        case RequestHostSync =>
          hostSyncRequests := hostSyncRequests + 1;
        case TrackHostChange =>
          if !BatchIsValid(range, changes) {
            Close(SourceModifiedReason);
          } else {
            var newRange, needsSync := TrackBatch(range, changes);
            range := newRange;
            if needsSync {
              mirrorSyncRequests := mirrorSyncRequests + 1;
            }
          }
      }
    }

    /** The two close listeners: closing the host or the mirror closes the pairing. */
    method OnDocumentClosed(doc: DocId)
      requires Valid() && registry.Valid()
      modifies this, registry
      ensures old(closed) || (doc != host && doc != mirror) ==>
        unchanged(this) && registry.active == old(registry.active)
      ensures !old(closed) && (doc == host || doc == mirror) ==>
        && origin == Dispose && closed
        && closeReason == Some(if doc == host then SourceClosedReason else SubdocumentClosedReason)
        && range == old(range)
        && registry.active == old(registry.active) - {host}
      ensures hostSyncRequests == old(hostSyncRequests) && mirrorSyncRequests == old(mirrorSyncRequests)
      ensures Valid() && registry.Valid()
    {
      if closed {
        return;
      }
      if doc == host {
        Close(SourceClosedReason);
      } else if doc == mirror {
        Close(SubdocumentClosedReason);
      }
    }

    /**
     * The throttled copy of the mirror's text over the tracked range of the
     * host: the tag is set to `Subdocument` and the range recomputed from the
     * mirror's text inside the edit; a failure closes the pairing. Like the
     * throttled call it models, it does not look at `closed`.
     */
    method SyncToHost(mirrorText: string, outcome: EditOutcome)
      requires Valid() && registry.Valid()
      modifies this, registry
      ensures hostSyncRequests == old(hostSyncRequests) && mirrorSyncRequests == old(mirrorSyncRequests)
      ensures range == if outcome == EditorUnavailable then old(range) else WriteBackRange(old(range), mirrorText)
      ensures outcome == EditApplied ==>
        && origin == Subdocument && closed == old(closed) && closeReason == old(closeReason)
        && registry.active == old(registry.active)
      ensures outcome != EditApplied ==>
        && origin == Dispose && closed && closeReason == Some(HostSyncFailedReason)
        && registry.active == old(registry.active) - {host}
      ensures Valid() && registry.Valid()
    {
      if outcome == EditorUnavailable {
        Close(HostSyncFailedReason);
        return;
      }
      origin := Subdocument;
      range := WriteBackRange(range, mirrorText);
      if outcome == EditRejected {
        Close(HostSyncFailedReason);
      }
    }

    /**
     * The throttled copy of the host's range into the mirror: the tag is set
     * to `Document` inside the edit; a failure closes the pairing. The range
     * does not move.
     */
    method SyncToMirror(outcome: EditOutcome)
      requires Valid() && registry.Valid()
      modifies this, registry
      ensures range == old(range)
      ensures hostSyncRequests == old(hostSyncRequests) && mirrorSyncRequests == old(mirrorSyncRequests)
      ensures outcome == EditApplied ==>
        && origin == Document && closed == old(closed) && closeReason == old(closeReason)
        && registry.active == old(registry.active)
      ensures outcome != EditApplied ==>
        && origin == Dispose && closed && closeReason == Some(MirrorSyncFailedReason)
        && registry.active == old(registry.active) - {host}
      ensures Valid() && registry.Valid()
    {
      if outcome == EditorUnavailable {
        Close(MirrorSyncFailedReason);
        return;
      }
      origin := Document;
      if outcome == EditRejected {
        Close(MirrorSyncFailedReason);
      }
    }
  }

  /**
   * A throttled host sync of a pairing already closed for reloading still
   * runs, and when its edit fails its close removes the host's entry, which
   * by then belongs to the newer pairing. The next activation on that host
   * finds nothing to close, and two open pairings listen to one host.
   */
  method LateSyncFailureOrphansPairing() returns (b: Pairing, c: Pairing)
    ensures b != c && b.host == c.host
    ensures !b.closed && !c.closed
  {
    var registry := new Registry();
    var zero := Range(Position(0, 0), Position(0, 0));
    var a := registry.Open(1, 2, zero);
    b := registry.Open(1, 3, zero);
    a.SyncToHost("x", EditorUnavailable);
    c := registry.Open(1, 4, zero);
  }
}
