/** The few libibverbs definitions the region and channel models rely on:
    access bits, the registration record `ibv_mr` and the outcome of
    `ibv_reg_mr`, a call into the NIC driver that the model does not see. */
module Ibv {

  // Access bits of enum ibv_access_flags.
  const IBV_ACCESS_LOCAL_WRITE: bv32 := 1
  const IBV_ACCESS_REMOTE_WRITE: bv32 := 2
  const IBV_ACCESS_REMOTE_READ: bv32 := 4

  /** A registration (struct ibv_mr): the pinned range, its keys and the
      access it was requested with. */
  datatype IbvMr = IbvMr(addr: nat, length: nat, lkey: nat, rkey: nat, access: bv32)

  /** What `ibv_reg_mr` returned: null, or a registration with these keys. */
  datatype RegOutcome = RegFailed | Registered(lkey: nat, rkey: nat)

  /** Answers of the NIC, by call number: whether each ibv_post_send and
      ibv_post_recv succeeds, and whether each completion polled from the
      send or the receive completion queue reports success. */
  datatype Nic = Nic(sendPostOk: nat -> bool, recvPostOk: nat -> bool, sendCqOk: nat -> bool, recvCqOk: nat -> bool)
}
