/**
 Admission of upload writes by free space (pkg/filesecurity/upload_space.go).
 */
module UploadSpace {
  import opened Basics

  newtype uint64 = x: int | 0 <= x < 0x1_0000_0000_0000_0000

  // Reservations handed out and not yet released.
  function Held(amounts: seq<uint64>, live: seq<bool>): nat
    requires |amounts| == |live|
  {
    if amounts == [] then 0
    else
      var n := |amounts| - 1;
      Held(amounts[..n], live[..n]) + if live[n] then amounts[n] as nat else 0
  }

  lemma {:induction false} HeldAfterRelease(amounts: seq<uint64>, live: seq<bool>, i: nat)
    requires |amounts| == |live| && i < |live|
    ensures live[i] ==> amounts[i] as nat <= Held(amounts, live)
    ensures Held(amounts, live[i := false]) == Held(amounts, live) - if live[i] then amounts[i] as nat else 0
  {
    var n := |amounts| - 1;
    if i < n {
      HeldAfterRelease(amounts[..n], live[..n], i);
      assert live[i := false][..n] == live[..n][i := false];
    } else {
      assert live[i := false][..n] == live[..n];
    }
  }

  class Admission {
    var reserved: uint64
    // every reservation ever made, and whether its release function has run
    var amounts: seq<uint64>
    var live: seq<bool>

    ghost predicate Valid()
      reads this
    {
      |amounts| == |live| && reserved as nat == Held(amounts, live)
    }

    constructor ()
      ensures Valid() && reserved == 0 && amounts == []
    {
      reserved, amounts, live := 0, [], [];
    }

    /** Reserve: an admitted write leaves the headroom free even when every admitted write
        in flight completes, and no sum overflows. */
    method Reserve(bytes: uint64, headroom: uint64, available: Option<uint64>) returns (ticket: Option<nat>)
      requires Valid()
      modifies this
      ensures Valid()
      ensures ticket.None? ==> reserved == old(reserved) && amounts == old(amounts) && live == old(live)
      ensures ticket.Some? <==>
                bytes == 0 || (available.Some? &&
                  old(reserved) as nat + bytes as nat + headroom as nat <= available.value as nat)
      ensures ticket.Some? ==>
                && ticket.value == |old(amounts)| && amounts == old(amounts) + [bytes] && live == old(live) + [true]
                && reserved as nat == old(reserved) as nat + bytes as nat
    {
      ticket := None;
      if bytes != 0 {
        if available.None? { return; }
        var free := available.value;
        if free < headroom || reserved > free - headroom || bytes > free - headroom - reserved { return; }
        if bytes > 0xffff_ffff_ffff_ffff - reserved {
          assert false;
        }
      }
      ticket := Some(|amounts|);
      assert (amounts + [bytes])[..|amounts|] == amounts && (live + [true])[..|live|] == live;
      reserved, amounts, live := reserved + bytes, amounts + [bytes], live + [true];
    }

    /** The release function of a reservation: it counts once, however often it runs, and
        never has more to give back than is reserved. */
    method Release(ticket: nat)
      requires Valid() && ticket < |amounts|
      modifies this`reserved, this`live
      ensures Valid() && live == old(live)[ticket := false]
      ensures reserved as nat == old(reserved) as nat - if old(live)[ticket] then amounts[ticket] as nat else 0
    {
      HeldAfterRelease(amounts, live, ticket);
      if live[ticket] {
        live := live[ticket := false];
        if amounts[ticket] <= reserved {
          reserved := reserved - amounts[ticket];
        } else {
          assert false;
        }
      } else {
        assert live[ticket := false] == live;
      }
    }
  }
}
