/** The block's gas pool (`core/gaspool.go`). */
module GasPool {
  import opened Common

  class Pool {
    var gas: uint64
    var blobGas: uint64

    constructor ()
      ensures gas == 0 && blobGas == 0
    {
      gas, blobGas := 0, 0;
    }

    /** The source panics where the sum leaves 64 bits, so callers must rule that out. */
    method AddGas(amount: uint64)
      requires gas + amount < TWO_TO_THE_64
      modifies this`gas
      ensures gas == old(gas) + amount
    {
      gas := gas + amount;
    }

    method SubGas(amount: uint64) returns (ok: bool)
      modifies this`gas
      ensures ok <==> amount <= old(gas)
      ensures gas == if ok then old(gas) - amount else old(gas)
    {
      ok := gas >= amount;
      if ok {
        gas := gas - amount;
      }
    }

    method SubBlobGas(amount: uint64) returns (ok: bool)
      modifies this`blobGas
      ensures ok <==> amount <= old(blobGas)
      ensures blobGas == if ok then old(blobGas) - amount else old(blobGas)
    {
      ok := blobGas >= amount;
      if ok {
        blobGas := blobGas - amount;
      }
    }
  }
}
