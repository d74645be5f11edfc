/**
 * The change-origin tag of a pairing: before the engine edits one of the two
 * documents itself it records where the edit comes from, so that the change
 * notification that edit produces (its echo) is recognised and swallowed
 * instead of being synchronised back.
 */
module Origins {

  /**
   * The tag: set on activation (the mirror's seeding edit), before a copy to
   * the mirror (`Document`) or to the host (`Subdocument`), on disposal; and
   * `Unknown` (the source's null) once the expected echo has been seen.
   */
  datatype Origin = Activate | Document | Subdocument | Dispose | Unknown

  /** Which document a change notification is about. */
  datatype Target = HostDocument | MirrorDocument | OtherDocument

  /** What the listener does with a notification. */
  datatype Reaction =
    | Ignore            // not ours, or the pairing is being disposed
    | ConsumeTag        // the echo of the engine's own edit: no sync
    | RequestHostSync   // a genuine mirror edit: copy the mirror into the host
    | TrackHostChange   // a genuine host edit: run the range tracker

  datatype Step = Step(next: Origin, reaction: Reaction)

  /** The document whose change notification is the echo of a pending tag. */
  function EchoTarget(o: Origin): Target
    requires o == Activate || o == Document || o == Subdocument
  {
    if o == Subdocument then HostDocument else MirrorDocument
  }

  /**
   * One notification: disposal swallows everything; otherwise a pending tag
   * is consumed by a notification on the document it was set for, and every
   * other notification on the host or the mirror is a genuine edit, whatever
   * the tag: a mirror edit requests a host sync, a host edit is tracked.
   */
  function Classify(o: Origin, t: Target): (s: Step)
    ensures o == Dispose ==> s == Step(Dispose, Ignore)
    ensures s.reaction == ConsumeTag <==>
              (o == Activate || o == Document || o == Subdocument) && t == EchoTarget(o)
    ensures s.next == (if s.reaction == ConsumeTag then Unknown else o)
    ensures o != Dispose && s.reaction != ConsumeTag ==>
      s.reaction == match t
        case MirrorDocument => RequestHostSync
        case HostDocument => TrackHostChange
        case OtherDocument => Ignore
  {
    if o == Dispose then Step(o, Ignore)
    else match t
      case MirrorDocument =>
        if o == Activate then Step(Unknown, ConsumeTag)        // the seeding edit
        else if o == Document then Step(Unknown, ConsumeTag)   // echo of a copy to the mirror
        else Step(o, RequestHostSync)
      case HostDocument =>
        if o == Subdocument then Step(Unknown, ConsumeTag)     // echo of a copy to the host
        else Step(o, TrackHostChange)
      case OtherDocument => Step(o, Ignore)
  }

  /** The tag after a sequence of notifications, and the reaction to each. */
  datatype Trace = Trace(last: Origin, reactions: seq<Reaction>)

  function Run(o: Origin, events: seq<Target>): (t: Trace)
    ensures |t.reactions| == |events|
    decreases |events|
  {
    if events == [] then Trace(o, [])
    else
      var s := Classify(o, events[0]);
      var rest := Run(s.next, events[1..]);
      Trace(rest.last, [s.reaction] + rest.reactions)
  }

  /** Running `a` then `b` is running `a + b`. */
  lemma {:induction false} RunAppend(o: Origin, a: seq<Target>, b: seq<Target>)
    ensures Run(o, a + b) == Trace(Run(Run(o, a).last, b).last, Run(o, a).reactions + Run(Run(o, a).last, b).reactions)
    decreases |a|
  {
    if a == [] {
      assert a + b == b;
    } else {
      assert (a + b)[0] == a[0] && (a + b)[1..] == a[1..] + b;
      RunAppend(Classify(o, a[0]).next, a[1..], b);
    }
  }

  /** Once disposing, a pairing ignores every notification and stays disposing. */
  lemma {:induction false} DisposeIgnoresEverything(events: seq<Target>)
    ensures Run(Dispose, events).last == Dispose
    ensures forall i :: 0 <= i < |events| ==> Run(Dispose, events).reactions[i] == Ignore
    decreases |events|
  {
    if events != [] {
      DisposeIgnoresEverything(events[1..]);
    }
  }

  /**
   * A pending tag survives every notification that is not its echo, none of
   * which is swallowed, and the first echo consumes it, resetting the tag.
   */
  lemma {:induction false} TagConsumedByFirstEcho(o: Origin, before: seq<Target>)
    requires o == Activate || o == Document || o == Subdocument
    requires forall i :: 0 <= i < |before| ==> before[i] != EchoTarget(o)
    ensures var t := Run(o, before + [EchoTarget(o)]);
      && t.last == Unknown
      && t.reactions[|before|] == ConsumeTag
      && forall i :: 0 <= i < |before| ==> t.reactions[i] != ConsumeTag
    decreases |before|
  {
    if before == [] {
      assert before + [EchoTarget(o)] == [EchoTarget(o)];
    } else {
      var rest := before[1..];
      assert (before + [EchoTarget(o)])[1..] == rest + [EchoTarget(o)];
      assert forall i :: 0 <= i < |rest| ==> rest[i] == before[i + 1];
      TagConsumedByFirstEcho(o, rest);
    }
  }

  /** With no tag pending, every mirror edit asks for a host sync and every host edit is tracked. */
  lemma {:induction false} UntaggedEditsAreGenuine(events: seq<Target>)
    ensures Run(Unknown, events).last == Unknown
    ensures forall i :: 0 <= i < |events| ==>
      Run(Unknown, events).reactions[i] ==
        match events[i]
        case MirrorDocument => RequestHostSync
        case HostDocument => TrackHostChange
        case OtherDocument => Ignore
    decreases |events|
  {
    if events != [] {
      UntaggedEditsAreGenuine(events[1..]);
    }
  }

  /**
   * Activation swallows exactly the first mirror notification, whatever host
   * notifications come before it; the next mirror edit is synced to the host.
   */
  lemma {:induction false} ActivationSuppressesFirstMirrorEdit(hostEdits: seq<Target>)
    requires forall i :: 0 <= i < |hostEdits| ==> hostEdits[i] == HostDocument
    ensures Run(Activate, hostEdits + [MirrorDocument, MirrorDocument]).reactions
            == seq(|hostEdits|, _ => TrackHostChange) + [ConsumeTag, RequestHostSync]
  {
    TagConsumedByFirstEcho(Activate, hostEdits);
    RunAppend(Activate, hostEdits + [MirrorDocument], [MirrorDocument]);
    assert hostEdits + [MirrorDocument] + [MirrorDocument] == hostEdits + [MirrorDocument, MirrorDocument];
    var t := Run(Activate, hostEdits + [MirrorDocument]);
    forall i | 0 <= i < |hostEdits|
      ensures t.reactions[i] == TrackHostChange
    {
      RunAppend(Activate, hostEdits[..i], [HostDocument] + hostEdits[i + 1..] + [MirrorDocument]);
      assert hostEdits[..i] + ([HostDocument] + hostEdits[i + 1..] + [MirrorDocument]) == hostEdits + [MirrorDocument];
      TagSurvivesHostEdits(hostEdits[..i]);
    }
  }

  /** Host edits leave the activation tag in place. */
  lemma {:induction false} TagSurvivesHostEdits(hostEdits: seq<Target>)
    requires forall i :: 0 <= i < |hostEdits| ==> hostEdits[i] == HostDocument
    ensures Run(Activate, hostEdits).last == Activate
    decreases |hostEdits|
  {
    if hostEdits != [] {
      TagSurvivesHostEdits(hostEdits[1..]);
    }
  }
}
