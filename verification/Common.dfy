/** What several parts of the model share. */
module Options {

  datatype Option<T> = None | Some(value: T)
}

/** Machine words and the fixed places of the guest's memory. */
module GuestLayout {

  const MB := 0x10_0000
  const GB := 0x4000_0000
  const TWO63 := 0x8000_0000_0000_0000
  const TWO64 := 0x1_0000_0000_0000_0000
  const PCI_EMUL_ECFG_BASE := 0xE000_0000
  const PCI_EMUL_MEMBASE64 := 0x1_0000_0000
  const PCI_EMUL_MEMLIMIT64 := 0x1_4000_0000

  const LOWMEM_LIMIT := 2 * GB
  const HIGHMEM_BASE := PCI_EMUL_MEMLIMIT64
}
