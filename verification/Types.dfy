/** Names shared by every model of the accounts database. */
module Types {
  type Pubkey = nat
  type Slot = nat
  type StoreId = nat
  type Offset = nat
  newtype Byte = x: int | 0 <= x < 256

  /**
    An account as the database stores it; owner, rent epoch and the executable bit never steer the code modelled here.
  */
  datatype Account = Account(lamports: nat, data: seq<Byte>)

  /** What was stored under a pubkey in a slot. */
  datatype Version = Version(key: Pubkey, slot: Slot)

  /** A note that the account at `offset` of a storage became obsolete as of `slot`. */
  datatype Obsolete = Obsolete(offset: Offset, dataLen: nat, slot: Slot)

  datatype Option<+T> = None | Some(value: T)

  function Min(a: nat, b: nat): (m: nat) {
    if a < b then a else b
  }

  ghost function MaxSlot(slots: set<Slot>): (top: Slot)
    requires slots != {}
    ensures top in slots && forall t :: t in slots ==> t <= top
  {
    var t :| t in slots;
    if slots == {t} then t
    else
      var rest := MaxSlot(slots - {t});
      assert forall u :: u in slots ==> u == t || u in slots - {t};
      if t < rest then rest else t
  }
}
