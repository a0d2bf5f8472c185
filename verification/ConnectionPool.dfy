/** The GATT connection slots: each holds one accepted connect from the claim until
    its disconnected report. API tasks and the NimBLE host task share the slots
    under a mutex. */
module ConnectionPool {
  import opened Prelude

  const MAX_CONNECTIONS := 4

  type Address = nat
  type ClientId = nat

  /** An accepted connect; it stands for the callback stored in the slot. */
  type Session = nat

  datatype State = Free | Connecting | Connected | Disconnecting

  datatype Slot = Slot(state: State, address: Address, addressType: nat,
                       client: Option<ClientId>, session: Option<Session>)

  const EMPTY := Slot(Free, 0, 0, None, None)

  predicate Holds(slot: Slot, a: Address) {
    slot.state != Free && slot.address == a
  }

  /** The first slot from `i` on that holds `a`, or the number of slots. */
  function FindAddress(slots: seq<Slot>, a: Address, i: nat): (k: nat)
    requires i <= |slots|
    ensures i <= k <= |slots|
    ensures k < |slots| ==> Holds(slots[k], a)
    ensures forall j :: i <= j < k ==> !Holds(slots[j], a)
    decreases |slots| - i
  {
    if i == |slots| || Holds(slots[i], a) then i else FindAddress(slots, a, i + 1)
  }

  function FindClient(slots: seq<Slot>, c: ClientId, i: nat): (k: nat)
    requires i <= |slots|
    ensures i <= k <= |slots|
    ensures k < |slots| ==> slots[k].client == Some(c)
    ensures forall j :: i <= j < k ==> slots[j].client != Some(c)
    decreases |slots| - i
  {
    if i == |slots| || slots[i].client == Some(c) then i else FindClient(slots, c, i + 1)
  }

  function FindFree(slots: seq<Slot>, i: nat): (k: nat)
    requires i <= |slots|
    ensures i <= k <= |slots|
    ensures k < |slots| ==> slots[k].state == Free
    ensures forall j :: i <= j < k ==> slots[j].state != Free
    decreases |slots| - i
  {
    if i == |slots| || slots[i].state == Free then i else FindFree(slots, i + 1)
  }

  /** Back to free; the client object stays for the next connect. */
  function Freed(slot: Slot): Slot {
    slot.(state := Free, address := 0, addressType := 0, session := None)
  }

  function Claimed(slot: Slot, a: Address, addressType: nat, session: Session, spare: ClientId): Slot {
    Slot(Connecting, a, addressType, if slot.client == None then Some(spare) else slot.client, Some(session))
  }

  /** `connect` refuses an address that is held, and refuses when no slot is free. */
  predicate Accepts(slots: seq<Slot>, a: Address) {
    FindAddress(slots, a, 0) == |slots| && FindFree(slots, 0) < |slots|
  }

  lemma AcceptsExactly(slots: seq<Slot>, a: Address)
    ensures Accepts(slots, a) <==>
            (forall s :: s in slots ==> !Holds(s, a)) && (exists s :: s in slots && s.state == Free)
  {
    if Accepts(slots, a) {
      assert slots[FindFree(slots, 0)] in slots;
    } else if FindAddress(slots, a, 0) < |slots| {
      assert slots[FindAddress(slots, a, 0)] in slots;
    }
  }

  function ConnectedAt(slots: seq<Slot>, k: nat): seq<Slot>
    requires k < |slots|
  {
    if slots[k].state == Connecting then slots[k := slots[k].(state := Connected)] else slots
  }

  function DisconnectAt(slots: seq<Slot>, k: nat): seq<Slot>
    requires k < |slots|
  {
    if slots[k].state == Connected then slots[k := slots[k].(state := Disconnecting)] else slots
  }

  function CountFree(slots: seq<Slot>): nat {
    if slots == [] then 0 else (if slots[0].state == Free then 1 else 0) + CountFree(slots[1..])
  }

  function InUse(slots: seq<Slot>): seq<Address> {
    if slots == [] then [] else (if slots[0].state == Free then [] else [slots[0].address]) + InUse(slots[1..])
  }

  lemma InUseAt(slots: seq<Slot>, i: nat, before: seq<Address>)
    requires i < |slots|
    ensures before + InUse(slots[i..]) ==
            (if slots[i].state == Free then before else before + [slots[i].address]) + InUse(slots[i + 1..])
  {
    assert slots[i..][1..] == slots[i + 1..];
    var rest, a := InUse(slots[i + 1..]), slots[i].address;
    assert before + ([a] + rest) == (before + [a]) + rest;
    assert [] + rest == rest;
  }

  lemma FirstOf<T>(s: seq<T>, x: T, n: nat)
    ensures (s + [x])[..Min(n, |s| + 1)] ==
            if Min(n, |s|) < n then s[..Min(n, |s|)] + [x] else s[..Min(n, |s|)]
  {
  }

  /** Free slots and listed addresses account for every slot. */
  lemma {:induction false} SlotsAccountedFor(slots: seq<Slot>)
    ensures CountFree(slots) + |InUse(slots)| == |slots|
    ensures forall a :: a in InUse(slots) <==> exists s :: s in slots && Holds(s, a)
  {
    if slots != [] {
      SlotsAccountedFor(slots[1..]);
      assert slots == [slots[0]] + slots[1..];
      forall a
        ensures a in InUse(slots) <==> exists s :: s in slots && Holds(s, a)
      {
        if a in InUse(slots[1..]) {
          var s :| s in slots[1..] && Holds(s, a);
          assert s in slots;
        } else if a in InUse(slots) {
          assert slots[0] in slots && Holds(slots[0], a);
        }
        if s :| s in slots && Holds(s, a) {
          assert s == slots[0] || s in slots[1..];
        }
      }
    }
  }

  /** What every locked section keeps true of the slots. */
  ghost predicate SlotsOk(slots: seq<Slot>) {
    && |slots| == MAX_CONNECTIONS
    && (forall i, j :: 0 <= i < j < |slots| && slots[i].state != Free && slots[j].state != Free ==>
          slots[i].address != slots[j].address)
    && (forall i, j :: 0 <= i < j < |slots| && slots[i].client.Some? ==> slots[i].client != slots[j].client)
    && (forall i, j :: 0 <= i < j < |slots| && slots[i].session.Some? ==> slots[i].session != slots[j].session)
    && (forall i :: 0 <= i < |slots| ==>
          (slots[i].state == Free ==> slots[i].session == None)
          && (slots[i].state != Free ==> slots[i].session.Some? && slots[i].client.Some?))
  }

  /** The slots with every live link asked to close. */
  function AllDisconnecting(slots: seq<Slot>): seq<Slot> {
    if slots == [] then []
    else [if slots[0].state == Connected then slots[0].(state := Disconnecting) else slots[0]]
         + AllDisconnecting(slots[1..])
  }

  lemma {:induction false} AllDisconnectingAt(slots: seq<Slot>, i: nat)
    requires i < |slots|
    ensures |AllDisconnecting(slots)| == |slots|
    ensures AllDisconnecting(slots)[i] ==
            if slots[i].state == Connected then slots[i].(state := Disconnecting) else slots[i]
  {
    if i > 0 {
      AllDisconnectingAt(slots[1..], i - 1);
    } else if |slots| > 1 {
      AllDisconnectingAt(slots[1..], 0);
    }
  }

  /** `g_slots`. Every method is one section under the mutex, except `DisconnectAll`,
      which is a series of them. */
  class Pool {
    const slots: array<Slot>
    var nextClient: ClientId

    constructor ()
      ensures fresh(slots) && slots[..] == [EMPTY, EMPTY, EMPTY, EMPTY] && nextClient == 0
    {
      var a := new Slot[MAX_CONNECTIONS](_ => EMPTY);
      slots := a;
      nextClient := 0;
    }

    /** The part of `connect` before the attempt is issued. */
    method Claim(a: Address, addressType: nat, session: Session) returns (at: Option<nat>)
      modifies this`nextClient, slots
      ensures at.Some? <==> old(Accepts(slots[..], a))
      ensures at == None ==> slots[..] == old(slots[..]) && nextClient == old(nextClient)
      ensures at.Some? ==>
                && at.value == FindFree(old(slots[..]), 0)
                && slots[..] == old(slots[..])[at.value :=
                     Claimed(old(slots[..])[at.value], a, addressType, session, old(nextClient))]
                && nextClient == old(nextClient) + (if old(slots[..])[at.value].client == None then 1 else 0)
      ensures at.Some? ==>
                && at.value < slots.Length && old(slots[at.value]).state == Free
                && slots[at.value].state == Connecting && slots[at.value].address == a
                && slots[at.value].addressType == addressType && slots[at.value].session == Some(session)
                && slots[at.value].client ==
                   (if old(slots[at.value]).client.Some? then old(slots[at.value]).client else Some(old(nextClient)))
                && forall j :: 0 <= j < slots.Length && j != at.value ==> slots[j] == old(slots[j])
    {
      ghost var o := slots[..];
      var k := LocateAddress(a);
      if k < slots.Length {
        return None;
      }
      k := LocateFree();
      if k == slots.Length {
        return None;
      }
      var client := slots[k].client;
      if client == None {
        client := Some(nextClient);
        nextClient := nextClient + 1;
      }
      slots[k] := Slot(Connecting, a, addressType, client, Some(session));
      return Some(k);
    }

    method LocateAddress(a: Address) returns (k: nat)
      ensures k == FindAddress(slots[..], a, 0)
    {
      k := 0;
      while k < slots.Length
        invariant k <= slots.Length && FindAddress(slots[..], a, 0) == FindAddress(slots[..], a, k)
      {
        if slots[k].state != Free && slots[k].address == a {
          return;
        }
        k := k + 1;
      }
    }

    method LocateClient(c: ClientId) returns (k: nat)
      ensures k == FindClient(slots[..], c, 0)
    {
      k := 0;
      while k < slots.Length
        invariant k <= slots.Length && FindClient(slots[..], c, 0) == FindClient(slots[..], c, k)
      {
        if slots[k].client == Some(c) {
          return;
        }
        k := k + 1;
      }
    }

    method LocateFree() returns (k: nat)
      ensures k == FindFree(slots[..], 0)
    {
      k := 0;
      while k < slots.Length
        invariant k <= slots.Length && FindFree(slots[..], 0) == FindFree(slots[..], k)
      {
        if slots[k].state == Free {
          return;
        }
        k := k + 1;
      }
    }

    /** The part of `connect` after an attempt could not be issued; the stored
        callback is snapshotted for the report. */
    method ReleaseAt(k: nat) returns (cb: Option<Session>)
      requires k < slots.Length
      modifies slots
      ensures cb == old(slots[k]).session
      ensures slots[..] == old(slots[..])[k := Freed(old(slots[..])[k])]
      ensures slots[k] == Slot(Free, 0, 0, old(slots[k]).client, None)
      ensures forall j :: 0 <= j < slots.Length && j != k ==> slots[j] == old(slots[j])
    {
      cb := slots[k].session;
      slots[k] := slots[k].(state := Free, address := 0, addressType := 0, session := None);
    }

    method OnConnect(c: ClientId) returns (cb: Option<Session>)
      modifies slots
      ensures var k := FindClient(old(slots[..]), c, 0);
              if k < slots.Length && old(slots[..])[k].state == Connecting
              then slots[..] == old(slots[..])[k := old(slots[..])[k].(state := Connected)]
                   && cb == old(slots[..])[k].session
              else slots[..] == old(slots[..]) && cb == None
    {
      var k := LocateClient(c);
      cb := None;
      if k < slots.Length && slots[k].state == Connecting {
        cb := slots[k].session;
        slots[k] := slots[k].(state := Connected);
      }
    }

    /** `onConnectFail` and `onDisconnect` treat the slot alike. */
    method OnEnd(c: ClientId) returns (cb: Option<Session>)
      modifies slots
      ensures var k := FindClient(old(slots[..]), c, 0);
              if k < slots.Length
              then slots[..] == old(slots[..])[k := Freed(old(slots[..])[k])] && cb == old(slots[..])[k].session
              else slots[..] == old(slots[..]) && cb == None
    {
      var k := LocateClient(c);
      cb := None;
      if k < slots.Length {
        cb := ReleaseAt(k);
      }
    }

    /** The client whose link is to be closed, if the address is connected. */
    method Disconnect(a: Address) returns (client: Option<ClientId>)
      modifies slots
      ensures var k := FindAddress(old(slots[..]), a, 0);
              if k < slots.Length
              then slots[..] == DisconnectAt(old(slots[..]), k)
                   && client == (if old(slots[..])[k].state == Connected then old(slots[..])[k].client else None)
              else slots[..] == old(slots[..]) && client == None
      ensures forall j :: 0 <= j < slots.Length ==>
                slots[j] == old(slots[j]) || (old(slots[j]).state == Connected && old(slots[j]).address == a
                                              && slots[j] == old(slots[j]).(state := Disconnecting))
      ensures forall j :: 0 <= j < slots.Length && old(slots[j]).state == Connected && old(slots[j]).address == a ==>
                exists k :: 0 <= k < slots.Length && old(slots[k]).state != Free && old(slots[k]).address == a
                            && slots[k].state != Connected
    {
      var k := LocateAddress(a);
      client := None;
      if k < slots.Length && slots[k].state == Connected {
        client := slots[k].client;
        slots[k] := slots[k].(state := Disconnecting);
      }
    }

    /** With no other task in between, no slot stays connected. */
    method DisconnectAll()
      requires SlotsOk(slots[..])
      modifies slots
      ensures slots[..] == AllDisconnecting(old(slots[..]))
      ensures forall i :: 0 <= i < slots.Length ==>
                slots[i] == if old(slots[i]).state == Connected then old(slots[i]).(state := Disconnecting) else old(slots[i])
      ensures forall i :: 0 <= i < slots.Length ==> slots[i].state != Connected
    {
      ghost var o := slots[..];
      var i := 0;
      while i < slots.Length
        invariant 0 <= i <= slots.Length
        invariant forall k :: 0 <= k < i ==>
                    slots[k] == if o[k].state == Connected then o[k].(state := Disconnecting) else o[k]
        invariant forall k :: i <= k < slots.Length ==> slots[k] == o[k]
      {
        if slots[i].state != Free {
          ghost var s := slots[..];
          assert Holds(s[i], o[i].address);
          assert forall k :: 0 <= k < i ==> !Holds(s[k], o[i].address);
          var _ := Disconnect(slots[i].address);
        }
        i := i + 1;
      }
      forall k | 0 <= k < |o|
        ensures |AllDisconnecting(o)| == |o| && slots[..][k] == AllDisconnecting(o)[k]
      {
        AllDisconnectingAt(o, k);
      }
    }

    method FreeSlots() returns (n: nat)
      ensures n == CountFree(slots[..])
    {
      n := 0;
      var i := 0;
      while i < slots.Length
        invariant 0 <= i <= slots.Length
        invariant n + CountFree(slots[i..]) == CountFree(slots[..])
      {
        assert slots[i..][1..] == slots[i + 1..];
        if slots[i].state == Free {
          n := n + 1;
        }
        i := i + 1;
      }
    }

    method InUseAddresses(cap: nat) returns (out: seq<Address>)
      ensures out == InUse(slots[..])[..Min(cap, |InUse(slots[..])|)]
    {
      out := [];
      ghost var all: seq<Address> := [];
      var i := 0;
      while i < slots.Length
        invariant 0 <= i <= slots.Length
        invariant all + InUse(slots[i..]) == InUse(slots[..])
        invariant out == all[..Min(cap, |all|)]
      {
        InUseAt(slots[..], i, all);
        hide InUse;
        if slots[i].state != Free {
          FirstOf(all, slots[i].address, cap);
          all := all + [slots[i].address];
          if |out| < cap {
            out := out + [slots[i].address];
          }
        }
        i := i + 1;
      }
    }

    /** Only a live link has a usable client. */
    method ClientFor(a: Address) returns (client: Option<ClientId>)
      requires SlotsOk(slots[..])
      ensures client.Some? <==> exists i :: 0 <= i < slots.Length && Holds(slots[i], a) && slots[i].state == Connected
      ensures client.Some? ==> exists i :: 0 <= i < slots.Length && Holds(slots[i], a) && slots[i].client == client
    {
      var k := LocateAddress(a);
      client := None;
      if k < slots.Length && slots[k].state == Connected {
        client := slots[k].client;
      }
    }
  }
}
