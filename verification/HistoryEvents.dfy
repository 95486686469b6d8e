/**
 What the error history holds: every event of its log is the failure that main/error_history.c was given, field
 by field, in the order in which the failures were recorded.
 */
module HistoryEvents {
  import opened Base
  import opened HistoryBlob
  import opened ErrorHistory
  import opened HistoryFlush

  /** `stored` is the text of `source` in a buffer of the same size: up to its NUL or the last byte, which is
      always NUL, and zero from there on. */
  predicate SameText(source: Bytes, stored: Bytes) {
    && |stored| == |source|
    && forall k :: 0 <= k < |source| ==>
         stored[k] == if k + 1 < |source| && (forall j :: 0 <= j <= k ==> source[j] != 0) then source[k] else 0
  }

  /** The failure is one that is recorded: an error other than success, and the lock exists. */
  predicate Accepts(locked: bool, action: Action) {
    locked && action.Record? && action.outcome.error != 0 && 1 <= action.outcome.error <= 12
  }

  /** Event `e` is the failure of `action`, recorded as number `sequence` in boot `bootId`. */
  predicate Describes(e: Event, action: Action, bootId: nat, sequence: nat)
    requires action.Record?
  {
    var given, kept := action.request, e.request;
    && e.sequence == sequence && e.bootId == bootId && e.uptimeMs == action.uptimeMs
    && e.utcMs == (if action.utcMs > 0 then action.utcMs else 0)
    && kept.port == given.port && kept.offset == given.offset && kept.quantity == given.quantity
    && kept.tid == given.tid && kept.unit == given.unit && kept.function_ == given.function_
    && kept.revision == given.revision
    && SameText(given.host, kept.host) && SameText(given.profile, kept.profile) && SameText(given.phase, kept.phase)
    && e.outcome.error == action.outcome.error && e.outcome.exceptionCode == action.outcome.exceptionCode
    && e.outcome.elapsedMs == action.outcome.elapsedMs && e.outcome.systemError == action.outcome.systemError
  }

  lemma TextKept(source: Bytes)
    requires source != []
    ensures SameText(source, StoredText(source))
  {
    var n := TextLength(source, |source| - 1);
    forall k | 0 <= k < |source|
      ensures StoredText(source)[k]
           == if k + 1 < |source| && (forall j :: 0 <= j <= k ==> source[j] != 0) then source[k] else 0
    {
      if k >= n && k + 1 < |source| {
        assert source[n] == 0;
      }
    }
  }

  /** One record: exactly one event more, and it is that failure; or nothing at all has changed. */
  lemma RecordAppends(w: World, action: Action, after: World)
    requires Step(w, action, after) && action.Record? && w.ram.blob.total == |w.log|
    ensures Accepts(w.ram.locked, action) ==>
      && |after.log| == |w.log| + 1 && after.log[..|w.log|] == w.log
      && Describes(after.log[|w.log|], action, w.ram.blob.bootId, |w.log| + 1)
    ensures !Accepts(w.ram.locked, action) ==> after == w
    ensures after.ram.locked == w.ram.locked && after.ram.blob.bootId == w.ram.blob.bootId && after.base == w.base
  {
    hide StoredText, SameText;
    TextKept(action.request.host);
    TextKept(action.request.profile);
    TextKept(action.request.phase);
  }

  /** The failures recorded since the last boot. */
  function SinceBoot(actions: seq<Action>): (records: seq<Action>)
    ensures forall k :: 0 <= k < |records| ==> records[k].Record?
  {
    if actions == [] then []
    else
      var last := actions[|actions| - 1];
      if last.Reboot? then []
      else SinceBoot(actions[..|actions| - 1]) + if Accepts(true, last) then [last] else []
  }

  /** The log ends with these failures, and before them it is what this boot began with. */
  ghost predicate EndsWith(w: World, records: seq<Action>)
    requires forall k :: 0 <= k < |records| ==> records[k].Record?
  {
    if !w.ram.locked then w.log == []
    else
      var begun := |w.log| - |records|;
      && begun >= 0 && w.base < |w.moments| && w.moments[w.base].log == w.log[..begun]
      && forall k :: 0 <= k < |records| ==>
           Describes(w.log[begun + k], records[k], w.ram.blob.bootId, begun + k + 1)
  }

  lemma MomentsGrow(w: World, action: Action, after: World)
    requires Step(w, action, after) && action.Record?
    ensures w.moments <= after.moments
  {
    hide Recorded, NewEvent;
  }

  lemma RecordEnds(w: World, action: Action, after: World, records: seq<Action>)
    requires Step(w, action, after) && action.Record? && w.ram.blob.total == |w.log|
    requires forall k :: 0 <= k < |records| ==> records[k].Record?
    requires EndsWith(w, records)
    ensures EndsWith(after, records + if Accepts(true, action) then [action] else [])
  {
    hide Describes, Recorded, NewEvent;
    RecordAppends(w, action, after);
    MomentsGrow(w, action, after);
  }

  lemma BootEnds(flash: Option<Bytes>, start: Start, moments: seq<Moment>, stored: nat)
    ensures EndsWith(Booted(flash, start, moments, stored), [])
  {
    hide ValidImage, Decode;
  }

  lemma OtherEnds(w: World, action: Action, after: World, records: seq<Action>)
    requires Step(w, action, after) && !action.Record?
    requires forall k :: 0 <= k < |records| ==> records[k].Record?
    requires EndsWith(w, records)
    ensures EndsWith(after, if action.Reboot? then [] else records)
  {
    hide Describes, Booted, Image;
    if action.Reboot? {
      var v := if action.persisted then Persist(w) else w;
      BootEnds(v.flash, action.start, v.moments, v.stored);
    }
  }

  lemma LogLength(w: World, origin: Origin)
    requires Inv(w, origin)
    ensures w.ram.blob.total == |w.log|
  {
    hide Stores, Growing, Spaced;
    if w.ram.locked {
      CurrentRing(w, origin);
      RingMeaning(w.ram.blob, w.log);
    }
  }

  /** In every run, after whatever boots, flushes and crashes: the log is what this boot began with, followed by
      exactly the failures recorded since, field by field and in order. */
  lemma {:induction false} LogIsWhatWasRecorded(origin: Origin, start0: Start, actions: seq<Action>, w: World)
    requires Reaches(origin, start0, actions, w)
    ensures EndsWith(w, SinceBoot(actions))
    decreases |actions|
  {
    hide Enabled, Next, EndsWith, Inv, Booted, Describes;
    if actions == [] {
      BootEnds(origin.flash, start0, origin.Moments(), |origin.Moments()|);
    } else {
      var earlier, last := actions[..|actions| - 1], actions[|actions| - 1];
      var before :| Reaches(origin, start0, earlier, before) && Step(before, Last(actions), w);
      LogIsWhatWasRecorded(origin, start0, earlier, before);
      if last.Record? {
        ReachedHolds(origin, start0, earlier, before);
        LogLength(before, origin);
        RecordEnds(before, last, w, SinceBoot(earlier));
      } else {
        OtherEnds(before, last, w, SinceBoot(earlier));
        assert SinceBoot(earlier) + [] == SinceBoot(earlier);
      }
    }
  }
}
