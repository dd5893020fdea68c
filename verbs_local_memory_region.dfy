/** Memory regions of the verbs transport: a possibly empty handle on an
    `ibv_mr`, created by `Register`, which maps the library's access flags to
    verbs access bits and never pins a zero-length range. */
module VerbsMemoryRegions {
  import opened Common
  import opened Ibv

  /** Verbs access mask requested for the library's flags `t`. Remote write
      access forces local write access, as the verbs API demands. */
  function VerbsAccess(t: bv32): (a: bv32)
    ensures (a & IBV_ACCESS_LOCAL_WRITE != 0) <==> (t & MR_LOCAL_WRITE != 0 || t & MR_REMOTE_WRITE != 0)
    ensures (a & IBV_ACCESS_REMOTE_READ != 0) <==> (t & MR_REMOTE_READ != 0)
    ensures (a & IBV_ACCESS_REMOTE_WRITE != 0) <==> (t & MR_REMOTE_WRITE != 0)
    ensures a & !(IBV_ACCESS_LOCAL_WRITE | IBV_ACCESS_REMOTE_WRITE | IBV_ACCESS_REMOTE_READ) == 0
  {
    var a0: bv32 := 0;
    var a1 := if t & MR_LOCAL_WRITE != 0 then a0 | IBV_ACCESS_LOCAL_WRITE else a0;
    var a2 := if t & MR_REMOTE_READ != 0 then a1 | IBV_ACCESS_REMOTE_READ else a1;
    if t & MR_REMOTE_WRITE != 0 then a2 | IBV_ACCESS_REMOTE_WRITE | IBV_ACCESS_LOCAL_WRITE else a2
  }

  /** MR_LOCAL_READ is the value 0 and so requests nothing. */
  lemma LocalReadRequestsNothing(t: bv32)
    ensures VerbsAccess(t | MR_LOCAL_READ) == VerbsAccess(t)
    ensures VerbsAccess(MR_LOCAL_READ) == 0
  {
  }

  /** A verbs region; `mr` is None for the empty region of length 0. */
  datatype VerbsLocalMemoryRegion = VerbsLocalMemoryRegion(mr: Option<IbvMr>)
  {
    function GetAddr(): nat { if mr.Some? then mr.value.addr else NULL }

    function GetLength(): nat { if mr.Some? then mr.value.length else 0 }

    function GetLKey(): nat { if mr.Some? then mr.value.lkey else 0 }

    function GetRKey(): nat { if mr.Some? then mr.value.rkey else 0 }

    /** The registration the destructor hands to `ibv_dereg_mr`, if any. */
    function Deregistered(): (d: Option<IbvMr>)
      ensures d.Some? <==> mr.Some?
      ensures d.Some? ==> d.value.addr == GetAddr() && d.value.length == GetLength()
    {
      mr
    }
  }

  /** VerbsLocalMemoryRegion::Register: a zero length gives the empty region
      without asking the driver; otherwise `reg`, the driver's answer for the
      computed access mask, decides between null and a region over
      [addr, addr + length). */
  function Register(addr: nat, length: nat, t: bv32, reg: RegOutcome): (r: Option<VerbsLocalMemoryRegion>)
    ensures length == 0 ==> r == Some(VerbsLocalMemoryRegion(None))
    ensures length > 0 ==> (r.None? <==> reg.RegFailed?)
    ensures r.Some? ==> r.value.GetLength() == length
    ensures r.Some? && length > 0 ==>
              && r.value.GetAddr() == addr
              && r.value.GetLKey() == reg.lkey && r.value.GetRKey() == reg.rkey
              && r.value.mr.value.access == VerbsAccess(t)
  {
    if length == 0 then
      Some(VerbsLocalMemoryRegion(None))
    else
      match reg
      case RegFailed => None
      case Registered(lkey, rkey) =>
        Some(VerbsLocalMemoryRegion(Some(IbvMr(addr, length, lkey, rkey, VerbsAccess(t)))))
  }

  /** The empty region reports a null address and zero length and keys, and
      its destruction deregisters nothing. */
  lemma EmptyRegion(addr: nat, t: bv32, reg: RegOutcome)
    ensures var r := Register(addr, 0, t, reg).value;
      r.GetAddr() == NULL && r.GetLength() == 0 && r.GetLKey() == 0 && r.GetRKey() == 0
      && r.Deregistered() == None
  {
  }
}
