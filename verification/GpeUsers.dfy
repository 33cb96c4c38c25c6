/**
 The users and handlers of the eight events that share one GPE register, on one thread with the
 event lock. Register accesses may fail; what the code rolls back then is part of the contracts.
*/
module GpeUsers {
  import opened GpeMasking

  datatype Status = Ok | InvalidArgument | AlreadyExists | NotFound | OutOfMemory | HardwareError

  datatype Triggering = Level | Edge

  datatype HandlerType = NoHandler | AmlHandler | NativeHandler | NativeHandlerRaw | ImplicitNotify

  /** What the handler pointer of an event points to. */
  datatype Handler =
    | Nothing
    | Node(id: nat)
    | Devices(ids: seq<nat>)
    | Native(cb: nat, ctx: nat, previousHandler: Handler, previousTriggering: Triggering,
             previousType: HandlerType, previouslyEnabled: bool)

  datatype Event = Event(handler: Handler, numUsers: nat, handlerType: HandlerType, triggering: Triggering,
                         blockInterrupts: bool)

  const EVENTS: nat := 8

  predicate IsNative(t: HandlerType) { t == NativeHandler || t == NativeHandlerRaw }

  /** An AML method or a list of devices to notify, that is, a handler the firmware asked for. */
  predicate IsFirmware(t: HandlerType) { t == AmlHandler || t == ImplicitNotify }

  /** Two masks have the same bits, save perhaps that of event e. */
  ghost predicate AgreeOff(a: Mask, b: Mask, e: nat) {
    forall i | i != e :: i in a <==> i in b
  }

  /** What is done to a whole register when a block is suspended or resumed. */
  datatype BlockAction = DisableAll | EnableAllForRuntime

  predicate EventOk(ev: Event, enabled: bool) {
    && (enabled <==> ev.numUsers > 0) && ev.numUsers <= 0xFF
    && (IsNative(ev.handlerType) ==> ev.handler.Native? && !IsNative(ev.handler.previousType))
  }

  predicate Fires(e: nat, ev: Event, current: Mask) {
    !ev.blockInterrupts && ev.numUsers > 0 && e in current
  }

  class GpeRegister {
    // the hardware registers, and which of their coming accesses fail (none past the end)
    var enable: Mask
    var status: Mask
    var faults: seq<bool>
    var runtimeMask: Mask
    var currentMask: Mask
    var maskedMask: Mask
    var events: seq<Event>

    /** Eight events nobody uses, registers clear, no faults to come. */
    constructor ()
      ensures Valid() && NoFaults() && maskedMask == {} && currentMask == {} && runtimeMask == {}
      ensures forall i | 0 <= i < EVENTS :: events[i] == Event(Nothing, 0, NoHandler, Level, false)
    {
      enable, status, faults := {}, {}, [];
      runtimeMask, currentMask, maskedMask := {}, {}, {};
      events := seq(EVENTS, _ => Event(Nothing, 0, NoHandler, Level, false));
    }

    /** A runtime bit is set exactly when its event has users. */
    ghost predicate Valid()
      reads this
    {
      |events| == EVENTS && forall i | 0 <= i < EVENTS :: EventOk(events[i], i in runtimeMask)
    }

    ghost predicate NoFaults()
      reads this`faults
    {
      forall i | 0 <= i < |faults| :: !faults[i]
    }

    method Access() returns (ok: bool)
      modifies this`faults
      ensures old(NoFaults()) ==> ok && NoFaults()
    {
      if faults == [] {
        return true;
      }
      ok := !faults[0];
      faults := faults[1..];
    }

    /** The gates in front of set_gpe_state: it reports success and does nothing. */
    ghost predicate Gated(e: nat, to: GpeState)
      reads this`maskedMask, this`currentMask
    {
      to != Disabled && (e in maskedMask || (to == Conditionally && e !in currentMask))
    }

    method SetGpeState(e: nat, to: GpeState) returns (s: Status)
      modifies this`enable, this`faults
      ensures s == Ok || s == HardwareError
      ensures enable == if s != Ok || Gated(e, to) then old(enable)
                        else if to == Disabled then old(enable) - {e} else old(enable) + {e}
      ensures Gated(e, to) ==> s == Ok && faults == old(faults)
      ensures old(NoFaults()) ==> s == Ok && NoFaults()
    {
      if to != Disabled && e in maskedMask {
        return Ok;
      }
      if to == Conditionally {
        if e !in currentMask {
          return Ok;
        }
      }
      var ok := Access();
      if !ok {
        return HardwareError;
      }
      var value := if to == Disabled then enable - {e} else enable + {e};
      ok := Access();
      if !ok {
        return HardwareError;
      }
      enable := value;
      return Ok;
    }

    method ClearGpe(e: nat) returns (s: Status)
      modifies this`status, this`faults
      ensures s == Ok || s == HardwareError
      ensures status == if s == Ok then old(status) - {e} else old(status)
      ensures old(NoFaults()) ==> s == Ok && NoFaults()
    {
      var ok := Access();
      if !ok {
        return HardwareError;
      }
      status := status - {e};
      return Ok;
    }

    method ToggleMasks(e: nat, setOn: bool)
      modifies this`runtimeMask, this`currentMask
      ensures runtimeMask == if setOn then old(runtimeMask) + {e} else old(runtimeMask) - {e}
      ensures currentMask == runtimeMask
    {
      if setOn {
        runtimeMask := runtimeMask + {e};
        currentMask := runtimeMask;
        return;
      }
      runtimeMask := runtimeMask - {e};
      currentMask := runtimeMask;
    }

    /** event.c:700-738 for this register: what is current now is what the hardware was told, if it took it. */
    method ApplyAction(action: BlockAction) returns (s: Status)
      modifies this`enable, this`currentMask, this`faults
      ensures currentMask == if action == DisableAll then {} else runtimeMask - maskedMask
      ensures s == Ok || s == HardwareError
      ensures enable == if s == Ok then currentMask else old(enable)
      ensures old(NoFaults()) ==> s == Ok && NoFaults()
    {
      var value := if action == DisableAll then {} else runtimeMask - maskedMask;
      currentMask := value;
      var ok := Access();
      if !ok {
        return HardwareError;
      }
      enable := value;
      return Ok;
    }

    /**
     Nothing about the other seven events changed, save perhaps their bits in current_mask: those are
     set to their runtime bits whenever e's own runtime bit is toggled.
    */
    twostate predicate OnlyTouches(e: nat)
      reads this
    {
      && |events| == old(|events|)
      && (forall i | 0 <= i < |events| && i != e :: events[i] == old(events[i]))
      && AgreeOff(runtimeMask, old(runtimeMask), e)
      && AgreeOff(maskedMask, old(maskedMask), e)
      && AgreeOff(enable, old(enable), e)
    }

    /**
     What became of current_mask: the whole register's runtime bits if e's was toggled, and nothing
     otherwise. So the siblings keep their current bits exactly if there was no toggling or those bits
     were their runtime bits already.
    */
    twostate predicate CurrentAfter(e: nat, toggled: bool)
      reads this
    {
      && currentMask == (if toggled then runtimeMask else old(currentMask))
      && (AgreeOff(currentMask, old(currentMask), e) <==> !toggled || AgreeOff(old(currentMask), old(runtimeMask), e))
    }

    /** One user fewer, or, when the last one cannot be disabled, everything as it was. */
    method RemoveUser(e: nat) returns (s: Status)
      requires Valid() && e < EVENTS
      modifies this`enable, this`faults, this`runtimeMask, this`currentMask, this`events
      ensures Valid() && OnlyTouches(e)
      ensures old(events[e].numUsers) == 0 ==> s == InvalidArgument
      ensures old(events[e].numUsers) > 0 ==> s == Ok || s == HardwareError
      ensures events[e] == if s == Ok then old(events[e]).(numUsers := old(events[e].numUsers) - 1) else old(events[e])
      ensures s != Ok ==> runtimeMask == old(runtimeMask) && enable == old(enable)
      ensures s == Ok ==> enable == if events[e].numUsers == 0 then old(enable) - {e} else old(enable)
      ensures CurrentAfter(e, old(events[e].numUsers) == 1)
      ensures old(NoFaults()) ==> NoFaults() && s != HardwareError
    {
      s := Ok;
      if events[e].numUsers == 0 {
        return InvalidArgument;
      }
      events := events[e := events[e].(numUsers := events[e].numUsers - 1)];
      if events[e].numUsers == 0 {
        ToggleMasks(e, false);
        s := SetGpeState(e, Disabled);
        if s != Ok {
          ToggleMasks(e, true);
          events := events[e := events[e].(numUsers := events[e].numUsers + 1)];
        }
      }
    }

    /** One user more, or, when the first one cannot be enabled, everything as it was. */
    method AddUser(e: nat, clearIfFirst: bool) returns (s: Status)
      requires Valid() && e < EVENTS
      modifies this`enable, this`status, this`faults, this`runtimeMask, this`currentMask, this`events
      ensures Valid() && OnlyTouches(e)
      ensures old(events[e].numUsers) == 0xFF ==> s == InvalidArgument
      ensures old(events[e].numUsers) < 0xFF ==> s == Ok || s == HardwareError
      ensures events[e] == if s == Ok then old(events[e]).(numUsers := old(events[e].numUsers) + 1) else old(events[e])
      ensures s != Ok ==> runtimeMask == old(runtimeMask) && enable == old(enable)
      ensures s == Ok ==>
        enable == if events[e].numUsers == 1 && e !in maskedMask then old(enable) + {e} else old(enable)
      ensures CurrentAfter(e, old(events[e].numUsers) == 0)
      ensures status == old(status) || (clearIfFirst && old(events[e].numUsers) == 0 && status == old(status) - {e})
      ensures old(NoFaults()) && clearIfFirst && old(events[e].numUsers) == 0 ==> status == old(status) - {e}
      ensures old(NoFaults()) ==> NoFaults() && s != HardwareError
    {
      hide IsNative, NoFaults;
      s := Ok;
      if events[e].numUsers == 0xFF {
        return InvalidArgument;
      }
      events := events[e := events[e].(numUsers := events[e].numUsers + 1)];
      if events[e].numUsers == 1 {
        if clearIfFirst {
          var ignored := ClearGpe(e);
        }
        ToggleMasks(e, true);
        s := SetGpeState(e, Enabled);
        if s != Ok {
          ToggleMasks(e, false);
          events := events[e := events[e].(numUsers := events[e].numUsers - 1)];
        }
      }
    }

    /** An unmasked event is enabled again if it is in use and not held back by a handler. */
    ghost predicate MayFire(e: nat)
      reads this
    {
      e < |events| && Fires(e, events[e], currentMask)
    }

    /** Waiting for handlers in flight does nothing here: see GpeMasking. */
    method MaskUnmask(e: nat, shouldMask: bool) returns (s: Status)
      requires Valid() && e < EVENTS
      modifies this`enable, this`faults, this`maskedMask
      ensures Valid() && s == if shouldMask == (e in old(maskedMask)) then InvalidArgument else Ok
      ensures s != Ok ==> maskedMask == old(maskedMask) && enable == old(enable) && faults == old(faults)
      ensures s == Ok ==> maskedMask == if shouldMask then old(maskedMask) + {e} else old(maskedMask) - {e}
      ensures s == Ok && old(NoFaults()) ==> NoFaults()
      ensures s == Ok && old(NoFaults()) && shouldMask ==> enable == old(enable) - {e}
      ensures s == Ok && old(NoFaults()) && !shouldMask ==>
        enable == if MayFire(e) then old(enable) + {e} else old(enable)
      ensures forall i | i != e :: i in enable <==> i in old(enable)
    {
      if shouldMask {
        if e in maskedMask {
          return InvalidArgument;
        }
        maskedMask := maskedMask + {e};
        var ignored := SetGpeState(e, Disabled);
        return Ok;
      }
      if e !in maskedMask {
        return InvalidArgument;
      }
      maskedMask := maskedMask - {e};
      if !events[e].blockInterrupts && events[e].numUsers > 0 {
        var ignored := SetGpeState(e, Conditionally);
      }
      return Ok;
    }

    method MaskSafe(e: nat) returns (did: bool)
      requires Valid() && e < EVENTS
      modifies this`enable, this`faults, this`maskedMask
      ensures Valid() && did == (e in currentMask)
      ensures maskedMask == if did then old(maskedMask) + {e} else old(maskedMask)
      ensures old(NoFaults()) ==> NoFaults()
      ensures old(NoFaults()) ==> enable == if did && e !in old(maskedMask) then old(enable) - {e} else old(enable)
      ensures forall i | i != e :: i in enable <==> i in old(enable)
    {
      if e !in currentMask {
        return false;
      }
      var ignored := MaskUnmask(e, true);
      return true;
    }

    /**
     Puts a native handler in front of the handler that is there. A mask that was set on an event in
     use does not survive it: masking "safely" takes that mask for its own.
    */
    method InstallHandler(e: nat, triggering: Triggering, t: HandlerType, cb: nat, ctx: nat, hasMemory: bool)
      returns (s: Status)
      requires Valid() && e < EVENTS && t in {NativeHandler, NativeHandlerRaw}
      modifies this`enable, this`faults, this`runtimeMask, this`currentMask, this`maskedMask, this`events
      ensures Valid() && OnlyTouches(e)
      ensures s == if old(events[e].handlerType) in {NativeHandler, NativeHandlerRaw} then AlreadyExists
                   else if !hasMemory then OutOfMemory else Ok
      ensures s != Ok ==> events == old(events) && maskedMask == old(maskedMask) && enable == old(enable)
      ensures s != Ok ==> runtimeMask == old(runtimeMask)
      ensures s == Ok ==> Installed(old(events[e]), events[e], triggering, t, cb, ctx)
      ensures s == Ok ==> maskedMask == if e in old(currentMask) then old(maskedMask) - {e} else old(maskedMask)
      ensures CurrentAfter(e, s == Ok && old(LastUser(events[e])))
      ensures s == Ok && old(NoFaults()) && old(WasEnabled(events[e])) ==>
        events[e].numUsers == old(events[e].numUsers) - 1
      ensures s == Ok && old(NoFaults()) ==>
        (e in enable <==> EnabledAfterInstall(e, old(events[e]), old(currentMask), old(maskedMask), old(enable)))
      ensures old(NoFaults()) ==> NoFaults() && (e in currentMask ==> e in old(currentMask))
    {
      hide NoFaults;
      if IsNative(events[e].handlerType) {
        return AlreadyExists;
      }
      if !hasMemory {
        return OutOfMemory;
      }
      var didMask := MaskSafe(e);
      PutInFront(e, triggering, t, cb, ctx);
      if didMask {
        var ignored := MaskUnmask(e, false);
      }
      return Ok;
    }

    /** The user of a handler that the firmware asked for is taken away, and the new handler remembers it. */
    method PutInFront(e: nat, triggering: Triggering, t: HandlerType, cb: nat, ctx: nat)
      requires Valid() && e < EVENTS && IsNative(t) && !IsNative(events[e].handlerType)
      modifies this`enable, this`faults, this`runtimeMask, this`currentMask, this`events
      ensures Valid() && OnlyTouches(e) && Installed(old(events[e]), events[e], triggering, t, cb, ctx)
      ensures CurrentAfter(e, old(LastUser(events[e])))
      ensures old(NoFaults()) ==> NoFaults()
      ensures old(NoFaults()) ==>
        events[e].numUsers == old(events[e].numUsers) - (if old(WasEnabled(events[e])) then 1 else 0)
      ensures old(NoFaults()) ==> enable == if old(LastUser(events[e])) then old(enable) - {e} else old(enable)
      ensures old(NoFaults()) && old(LastUser(events[e])) ==> e !in currentMask
    {
      hide NoFaults;
      var ev := events[e];
      var previouslyEnabled := false;
      if IsFirmware(ev.handlerType) && ev.numUsers != 0 {
        previouslyEnabled := true;
        var ignored := RemoveUser(e);
      }
      var native := Native(cb, ctx, ev.handler, ev.triggering, ev.handlerType, previouslyEnabled);
      events := events[e := events[e].(handler := native, handlerType := t, triggering := triggering)];
    }

    static predicate WasEnabled(ev: Event) {
      ev.handlerType in {AmlHandler, ImplicitNotify} && ev.numUsers > 0
    }

    /** Installing a native handler takes the event's last user away. */
    static predicate LastUser(ev: Event) {
      WasEnabled(ev) && ev.numUsers == 1
    }

    /** The hardware enable bit after an installation without failing accesses. */
    static ghost predicate EnabledAfterInstall(e: nat, ev: Event, current: Mask, masked: Mask, enable: Mask) {
      && !LastUser(ev)
      && if e !in current then e in enable else Fires(e, ev, current) || (e in masked && e in enable)
    }

    static predicate Installed(was: Event, now: Event, triggering: Triggering, t: HandlerType, cb: nat, ctx: nat) {
      && now.handlerType == t && now.triggering == triggering && now.blockInterrupts == was.blockInterrupts
      && now.handler == Native(cb, ctx, was.handler, was.triggering, was.handlerType, WasEnabled(was))
      && (now.numUsers == was.numUsers || (WasEnabled(was) && now.numUsers == was.numUsers - 1))
    }

    /** Takes the native handler away and puts back what it was put in front of. */
    method UninstallHandler(e: nat, cb: nat) returns (s: Status)
      requires Valid() && e < EVENTS
      modifies this
      ensures Valid() && OnlyTouches(e)
      ensures s == if old(events[e].handlerType) !in {NativeHandler, NativeHandlerRaw} then NotFound
                   else if old(events[e].handler.cb) != cb then InvalidArgument else Ok
      ensures s != Ok ==> events == old(events) && maskedMask == old(maskedMask) && enable == old(enable)
      ensures s != Ok ==> runtimeMask == old(runtimeMask) && status == old(status)
      ensures s == Ok ==> Uninstalled(old(events[e]), events[e])
      ensures s == Ok && !(Polled(events[e]) && e in old(status)) ==>
        events[e].blockInterrupts == old(events[e].blockInterrupts) && status == old(status)
      ensures s == Ok && old(NoFaults()) && Polled(events[e]) && e in old(status) ==>
        events[e].blockInterrupts && status == old(status) - {e}
      ensures s == Ok && Polled(events[e]) ==>
        && (old(events[e].blockInterrupts) ==> events[e].blockInterrupts)
        && (status == old(status) || status == old(status) - {e})
      ensures s == Ok ==> maskedMask == if e in old(currentMask) then old(maskedMask) - {e} else old(maskedMask)
      ensures CurrentAfter(e, s == Ok && old(FirstUser(events[e])))
      ensures s == Ok && old(NoFaults()) && old(ToReenable(events[e])) && old(events[e].numUsers) < 0xFF ==>
        events[e].numUsers == old(events[e].numUsers) + 1
      ensures s == Ok && old(NoFaults()) ==>
        (e in enable <==>
          && !(Polled(events[e]) && e in old(status))
          && EnabledAfterUninstall(e, old(events[e]), old(currentMask), old(maskedMask), old(enable)))
    {
      hide NoFaults, EnabledAfterUninstall;
      if !IsNative(events[e].handlerType) {
        return NotFound;
      }
      var native := events[e].handler;
      if native.cb != cb {
        return InvalidArgument;
      }
      ReplaceHandler(e);
      hide EventOk;
      if events[e].numUsers > 0 && events[e].triggering == Edge {
        MaybeDispatch(e);
      }
      return Ok;
    }

    /** An edge-triggered event in use is looked at when its handler has been put back. */
    static predicate Polled(ev: Event) {
      ev.numUsers > 0 && ev.triggering == Edge
    }

    /** event.c:1532-1549: masked, put back, and unmasked. */
    method ReplaceHandler(e: nat)
      requires Valid() && e < EVENTS && IsNative(events[e].handlerType)
      modifies this`enable, this`status, this`faults, this`runtimeMask, this`currentMask, this`maskedMask, this`events
      ensures Valid() && OnlyTouches(e) && status == old(status)
      ensures Uninstalled(old(events[e]), events[e]) && events[e].blockInterrupts == old(events[e].blockInterrupts)
      ensures maskedMask == if e in old(currentMask) then old(maskedMask) - {e} else old(maskedMask)
      ensures CurrentAfter(e, old(FirstUser(events[e])))
      ensures old(NoFaults()) ==> NoFaults()
      ensures old(NoFaults()) && old(ToReenable(events[e])) && old(events[e].numUsers) < 0xFF ==>
        events[e].numUsers == old(events[e].numUsers) + 1
      ensures old(NoFaults()) ==>
        (e in enable <==> EnabledAfterUninstall(e, old(events[e]), old(currentMask), old(maskedMask), old(enable)))
    {
      hide NoFaults, Uninstalled;
      var didMask := MaskSafe(e);
      PutBack(e);
      if didMask {
        var ignored := MaskUnmask(e, false);
      }
    }

    /** The handler that was there before, and the user that was taken from it. */
    method PutBack(e: nat)
      requires Valid() && e < EVENTS && IsNative(events[e].handlerType)
      modifies this`enable, this`status, this`faults, this`runtimeMask, this`currentMask, this`events
      ensures Valid() && OnlyTouches(e) && Uninstalled(old(events[e]), events[e]) && status == old(status)
      ensures events[e].blockInterrupts == old(events[e].blockInterrupts)
      ensures CurrentAfter(e, old(FirstUser(events[e])))
      ensures old(NoFaults()) ==> NoFaults()
      ensures old(NoFaults()) ==> events[e].numUsers == UsersAfter(old(events[e]))
      ensures old(NoFaults()) ==>
        enable == if old(FirstUser(events[e])) && e !in maskedMask then old(enable) + {e} else old(enable)
      ensures old(NoFaults()) && old(FirstUser(events[e])) ==> e in currentMask
    {
      hide NoFaults;
      var native := events[e].handler;
      events := events[e := events[e].(handler := native.previousHandler, triggering := native.previousTriggering,
                                       handlerType := native.previousType)];
      if IsFirmware(events[e].handlerType) && native.previouslyEnabled {
        var ignored := AddUser(e, false);
      }
    }

    static predicate ToReenable(ev: Event)
      requires ev.handler.Native?
    {
      ev.handler.previousType in {AmlHandler, ImplicitNotify} && ev.handler.previouslyEnabled
    }

    /** Uninstalling a native handler gives the event its first user back. */
    static predicate FirstUser(ev: Event)
      requires ev.handler.Native?
    {
      ToReenable(ev) && ev.numUsers == 0
    }

    static function UsersAfter(ev: Event): nat
      requires ev.handler.Native?
    {
      if ToReenable(ev) && ev.numUsers < 0xFF then ev.numUsers + 1 else ev.numUsers
    }

    /** The hardware enable bit after a replacement without failing accesses, before a pending event is dispatched. */
    static ghost predicate EnabledAfterUninstall(e: nat, ev: Event, current: Mask, masked: Mask, enable: Mask)
      requires ev.handler.Native?
    {
      if e !in current then (if FirstUser(ev) then e !in masked || e in enable else e in enable)
      else (!ev.blockInterrupts && UsersAfter(ev) > 0) || (e in masked && e in enable)
    }

    static predicate Uninstalled(was: Event, now: Event)
      requires was.handler.Native?
    {
      && now.handler == was.handler.previousHandler && now.handlerType == was.handler.previousType
      && now.triggering == was.handler.previousTriggering
      && (now.numUsers == was.numUsers || (ToReenable(was) && now.numUsers == was.numUsers + 1))
    }

    /** maybe_dispatch_gpe and dispatch_gpe, for handlers that are run later as scheduled work. */
    method MaybeDispatch(e: nat)
      requires Valid() && e < EVENTS && !IsNative(events[e].handlerType)
      modifies this`enable, this`status, this`faults, this`events
      ensures Valid() && |events| == old(|events|)
      ensures events == old(events)[e := old(events[e]).(blockInterrupts := events[e].blockInterrupts)]
      ensures old(events[e].blockInterrupts) ==> events[e].blockInterrupts
      ensures status == old(status) || (old(events[e].triggering) == Edge && status == old(status) - {e})
      ensures forall i | i != e :: i in enable <==> i in old(enable)
      ensures e !in old(status) ==> enable == old(enable) && status == old(status) && events == old(events)
      ensures old(NoFaults()) && e in old(status) ==> enable == old(enable) - {e} && events[e].blockInterrupts
      ensures old(NoFaults()) && e in old(status) ==>
        status == if events[e].triggering == Edge then old(status) - {e} else old(status)
    {
      assert events == events[e := events[e].(blockInterrupts := events[e].blockInterrupts)];
      var ok := Access();
      if !ok || e !in status {
        return;
      }
      var s := SetGpeState(e, Disabled);
      if s != Ok {
        return;
      }
      events := events[e := events[e].(blockInterrupts := true)];
      if events[e].triggering == Edge {
        s := ClearGpe(e);
        if s != Ok {
          s := SetGpeState(e, Conditionally);
        }
      }
    }

    /** The hardware enable bit after an installation and an uninstallation without failing accesses. */
    static ghost predicate EnabledAfterBoth(e: nat, ev: Event, current: Mask, masked: Mask, enable: Mask,
                                            pending: bool)
    {
      && !(Polled(ev) && pending)
      && if LastUser(ev) then e in current || e !in masked
         else if e !in current then e in enable
         else Fires(e, ev, current)
    }

    /**
     Installing a native handler and uninstalling it gives back the event and every runtime bit. The
     masks come back as they were exactly when the event was not both masked and in use, and the
     siblings' current bits exactly unless the event's last user came and went over a block action.
    */
    method InstallThenUninstall(e: nat, triggering: Triggering, t: HandlerType, cb: nat, ctx: nat)
      requires Valid() && e < EVENTS && IsNative(t) && !IsNative(events[e].handlerType) && NoFaults()
      modifies this
      ensures Valid() && OnlyTouches(e)
      ensures events[e].handler == old(events[e].handler) && events[e].handlerType == old(events[e].handlerType)
      ensures events[e].triggering == old(events[e].triggering) && events[e].numUsers == old(events[e].numUsers)
      ensures events[e].blockInterrupts == old(events[e].blockInterrupts || (Polled(events[e]) && e in status))
      ensures status == if old(Polled(events[e])) then old(status) - {e} else old(status)
      ensures runtimeMask == old(runtimeMask)
      ensures maskedMask == old(maskedMask) <==> !(e in old(maskedMask) && e in old(currentMask))
      ensures CurrentAfter(e, old(LastUser(events[e])))
      ensures e in enable <==>
        EnabledAfterBoth(e, old(events[e]), old(currentMask), old(maskedMask), old(enable), e in old(status))
    {
      hide NoFaults;
      var s := InstallHandler(e, triggering, t, cb, ctx, true);
      s := UninstallHandler(e, cb);
    }
  }

  /** An event in use, then masked: after a native handler has come and gone it is no longer masked. */
  method MaskIsLost() returns (before: Mask, after: Mask)
    ensures before == {0} && after == {}
  {
    var g := new GpeRegister();
    g.events := g.events[0 := Event(Node(7), 0, AmlHandler, Level, false)];
    var s := g.AddUser(0, true);
    s := g.MaskUnmask(0, true);
    before := g.maskedMask;
    g.InstallThenUninstall(0, Level, NativeHandler, 1, 2);
    after := g.maskedMask;
    assert forall i | i in after :: i in {0};
  }

  /**
   An event in use is disabled with its whole register. When a sibling gets its first user, its current
   bit comes back, and masking and unmasking it turns the hardware bit on again.
  */
  method BlockActionIsUndone() returns (blocked: Mask, after: Mask, enabled: Mask)
    ensures 1 !in blocked && 1 in after && 1 in enabled
  {
    var g := new GpeRegister();
    g.events := g.events[1 := Event(Node(7), 0, AmlHandler, Level, false)];
    var s := g.AddUser(1, true);
    s := g.ApplyAction(DisableAll);
    blocked := g.currentMask;
    s := g.AddUser(0, true);
    after := g.currentMask;
    s := g.MaskUnmask(1, true);
    s := g.MaskUnmask(1, false);
    enabled := g.enable;
  }
}
