/** Memory regions of the older RDMA transport. Unlike the verbs model there is
    no zero-length case: registration is always attempted, and a region always
    holds a registration. */
module RdmaMemoryRegions {
  import opened Common
  import opened Ibv
  import VerbsMemoryRegions

  /** Access mask computed by RDMALocalMemoryRegion::Register (its tests run
      in a different order from the verbs model's). */
  function RdmaAccess(t: bv32): (a: bv32)
    ensures (a & IBV_ACCESS_LOCAL_WRITE != 0) <==> (t & MR_LOCAL_WRITE != 0 || t & MR_REMOTE_WRITE != 0)
    ensures (a & IBV_ACCESS_REMOTE_READ != 0) <==> (t & MR_REMOTE_READ != 0)
    ensures (a & IBV_ACCESS_REMOTE_WRITE != 0) <==> (t & MR_REMOTE_WRITE != 0)
    ensures a & !(IBV_ACCESS_LOCAL_WRITE | IBV_ACCESS_REMOTE_WRITE | IBV_ACCESS_REMOTE_READ) == 0
  {
    var a0: bv32 := 0;
    var a1 := if t & MR_LOCAL_WRITE != 0 then a0 | IBV_ACCESS_LOCAL_WRITE else a0;
    var a2 := if t & MR_REMOTE_WRITE != 0 then a1 | IBV_ACCESS_REMOTE_WRITE | IBV_ACCESS_LOCAL_WRITE else a1;
    if t & MR_REMOTE_READ != 0 then a2 | IBV_ACCESS_REMOTE_READ else a2
  }

  /** Both region models request the same access for every flag set. */
  lemma SameAccessAsVerbs(t: bv32)
    ensures RdmaAccess(t) == VerbsMemoryRegions.VerbsAccess(t)
  {
  }

  /** An RDMA region always wraps a registration. */
  datatype RdmaLocalMemoryRegion = RdmaLocalMemoryRegion(mr: IbvMr)
  {
    function GetAddr(): nat { mr.addr }

    function GetLength(): nat { mr.length }

    function GetLKey(): nat { mr.lkey }

    function GetRKey(): nat { mr.rkey }
  }

  /** RDMALocalMemoryRegion::Register: the driver is always asked, even for a
      zero length, and its refusal gives null. */
  function Register(addr: nat, length: nat, t: bv32, reg: RegOutcome): (r: Option<RdmaLocalMemoryRegion>)
    ensures r.None? <==> reg.RegFailed?
    ensures r.Some? ==>
              && r.value.GetAddr() == addr && r.value.GetLength() == length
              && r.value.GetLKey() == reg.lkey && r.value.GetRKey() == reg.rkey
              && r.value.mr.access == RdmaAccess(t)
  {
    match reg
    case RegFailed => None
    case Registered(lkey, rkey) => Some(RdmaLocalMemoryRegion(IbvMr(addr, length, lkey, rkey, RdmaAccess(t))))
  }

  /** The registration the destructor of a region hands to `ibv_dereg_mr`: a
      region exists only for a non-null registration, so it is always one. */
  function Deregistered(r: Option<RdmaLocalMemoryRegion>): (d: Option<IbvMr>)
    ensures d.Some? <==> r.Some?
    ensures d.Some? ==> d.value.addr == r.value.GetAddr() && d.value.length == r.value.GetLength()
  {
    if r.Some? then Some(r.value.mr) else None
  }

  /** Where the verbs model hands back an empty region for length 0, this one
      registers the zero-length range and keeps the driver's keys. */
  lemma ZeroLengthIsRegistered(addr: nat, t: bv32, lkey: nat, rkey: nat)
    ensures var r := Register(addr, 0, t, Registered(lkey, rkey));
      r.Some? && r.value.GetLength() == 0 && r.value.GetLKey() == lkey && Deregistered(r).Some?
    ensures VerbsMemoryRegions.Register(addr, 0, t, Registered(lkey, rkey)).value.GetLKey() == 0
  {
  }
}
