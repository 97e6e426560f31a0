/// What the two stages share: power-domain providers, the disabling of a node, and the release slots of
/// the spin-table page.
module Handoff {
  import opened Bytes

  const DISABLED: bytes := Ascii("disabled") + [0]

  datatype Provider = Provider(phandle: u32, cells: u32, psci: bool)

  function FindProvider(providers: seq<Provider>, phandle: u32): (r: Option<Provider>)
    ensures r.Some? ==> r.value in providers && r.value.phandle == phandle
    ensures r.None? ==> forall p <- providers :: p.phandle != phandle
  {
    if providers == [] then None
    else if providers[0].phandle == phandle then Some(providers[0])
    else FindProvider(providers[1..], phandle)
  }

  const SPIN_TABLE_SLOTS: nat := 0x400
  const SPIN_TABLE_STRIDE: nat := 0x80

  /// The slot of a CPU: 0x80 bytes per CPU from 0x400 bytes into the page.
  function SlotAddress(base: nat, cpu: nat): nat { base + SPIN_TABLE_SLOTS + cpu * SPIN_TABLE_STRIDE }
}
