/**
 * The stamping policy of vfs_stamp_create: the current directory's session
 * is never left stamped, and the session being left is stamped only when
 * nobody vetoes it and its class reports that nothing is open in it.
 */
module Create {
  import opened Timeval
  import opened Stamping
  import opened Registry

  /**
   * What vfs_stamp_create learns from outside gc.c: whether a
   * "vfs_timestamp" listener is registered, the class and id of the current
   * directory, whether the listener set `ret` when the event was raised,
   * and what the class's nothingisopen hook answers for the id.
   */
  datatype Context = Context(
    listenerPresent: bool,
    cwdClass: VfsClass,
    cwdId: VfsId,
    vetoed: bool,
    nothingIsOpen: bool)

  /** The session being left is a real one, and not the current directory's. */
  predicate LeavesOtherSession(vclass: VfsClass?, id: VfsId, ctx: Context)
  {
    !(id == NullId || (ctx.cwdClass == vclass && ctx.cwdId == id))
  }

  /** Nobody vetoed, and the class says nothing of the session is open. */
  predicate MayStamp(vclass: VfsClass?, ctx: Context)
  {
    !ctx.vetoed && vclass != null && vclass.hasNothingIsOpen && ctx.nothingIsOpen
  }

  /** The list after vfs_stamp_create (vclass, id) in context ctx at time now. */
  function StampCreated(s: seq<Stamping>, vclass: VfsClass?, id: VfsId, ctx: Context, now: TimeVal): (r: seq<Stamping>)
    ensures !ctx.listenerPresent ==> r == s
    ensures |r| <= |s| + 1
  {
    if !ctx.listenerPresent then s
    else
      var s1 := Removed(s, ctx.cwdClass, ctx.cwdId);
      if LeavesOtherSession(vclass, id, ctx) && MayStamp(vclass, ctx)
      then AddStamped(s1, vclass, id, now)
      else s1
  }

  // Helper: a key is found exactly when some record of the list has it.
  lemma FoundIffMember(s: seq<Stamping>, v: VfsClass, id: VfsId)
    ensures IndexOf(s, v, id) >= 0 <==> exists st :: st in s && Matches(st, v, id)
  {
    var i := IndexOf(s, v, id);
    if i >= 0 {
      assert s[i] in s;
    }
  }

  /** vfs_stamp_create keeps the list's invariant. */
  lemma StampCreateWellformed(s: seq<Stamping>, vclass: VfsClass?, id: VfsId, ctx: Context, now: TimeVal)
    requires Wellformed(s)
    ensures Wellformed(StampCreated(s, vclass, id, ctx, now))
  {
    if ctx.listenerPresent {
      var s1 := Removed(s, ctx.cwdClass, ctx.cwdId);
      RemovedWellformed(s, ctx.cwdClass, ctx.cwdId);
      if LeavesOtherSession(vclass, id, ctx) && MayStamp(vclass, ctx) {
        AddStampedWellformed(s1, vclass, id, now);
      }
    }
  }

  /**
   * With a listener registered, the current directory's session has no
   * stamp afterwards, whichever session is being left.
   */
  lemma StampCreateNeverStampsCwd(s: seq<Stamping>, vclass: VfsClass?, id: VfsId, ctx: Context, now: TimeVal)
    requires Wellformed(s) && ctx.listenerPresent
    ensures IndexOf(StampCreated(s, vclass, id, ctx, now), ctx.cwdClass, ctx.cwdId) < 0
  {
    var s1 := Removed(s, ctx.cwdClass, ctx.cwdId);
    RemovedLeavesNone(s, ctx.cwdClass, ctx.cwdId);
    if LeavesOtherSession(vclass, id, ctx) && MayStamp(vclass, ctx) {
      var r := AddStamped(s1, vclass, id, now);
      AddStampedFrame(s1, vclass, id, now);
      FoundIffMember(s1, ctx.cwdClass, ctx.cwdId);
      FoundIffMember(r, ctx.cwdClass, ctx.cwdId);
    }
  }

  /**
   * With a listener registered, the session being left holds a stamp
   * afterwards exactly when it is a real session other than the current
   * directory's and either already had one or passes every test: no veto,
   * a nothingisopen hook that says nothing is open, a non-local class.
   */
  lemma StampCreateStampsIff(s: seq<Stamping>, vclass: VfsClass, id: VfsId, ctx: Context, now: TimeVal)
    requires Wellformed(s) && ctx.listenerPresent
    ensures IndexOf(StampCreated(s, vclass, id, ctx, now), vclass, id) >= 0
        <==> LeavesOtherSession(vclass, id, ctx)
             && (IndexOf(s, vclass, id) >= 0 || (MayStamp(vclass, ctx) && !vclass.local))
  {
    var r := StampCreated(s, vclass, id, ctx, now);
    StampCreateWellformed(s, vclass, id, ctx, now);
    if id == NullId {
      // Wellformed(r) rules out a record with a NULL id.
    } else if ctx.cwdClass == vclass && ctx.cwdId == id {
      StampCreateNeverStampsCwd(s, vclass, id, ctx, now);
    } else {
      var s1 := Removed(s, ctx.cwdClass, ctx.cwdId);
      RemovedMembers(s, ctx.cwdClass, ctx.cwdId);
      FoundIffMember(s, vclass, id);
      FoundIffMember(s1, vclass, id);
      assert IndexOf(s1, vclass, id) >= 0 <==> IndexOf(s, vclass, id) >= 0;
      if MayStamp(vclass, ctx) {
        AddStampedFinds(s1, vclass, id, now);
      }
    }
  }

  /**
   * vfs_stamp_create changes nothing without a listener, and otherwise
   * touches no record but those of the current directory and of the
   * session being left.
   */
  lemma StampCreateFrame(s: seq<Stamping>, vclass: VfsClass?, id: VfsId, ctx: Context, now: TimeVal)
    requires Wellformed(s)
    ensures !ctx.listenerPresent ==> StampCreated(s, vclass, id, ctx, now) == s
    ensures forall st | !Matches(st, ctx.cwdClass, ctx.cwdId) && (vclass == null || !Matches(st, vclass, id)) ::
      st in StampCreated(s, vclass, id, ctx, now) <==> st in s
  {
    if ctx.listenerPresent {
      var s1 := Removed(s, ctx.cwdClass, ctx.cwdId);
      RemovedMembers(s, ctx.cwdClass, ctx.cwdId);
      if LeavesOtherSession(vclass, id, ctx) && MayStamp(vclass, ctx) {
        AddStampedFrame(s1, vclass, id, now);
      }
    }
  }
}
