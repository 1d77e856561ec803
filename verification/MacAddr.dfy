/**
 48-bit hardware addresses and what the program reads off them (internal/macaddr/macaddr.go).
 */
module MacAddr {

  type Mac = m: int | 0 <= m < 0x1_0000_0000_0000

  function FirstOctet(mac: Mac): nat {
    mac / 0x100_0000_0000
  }

  /** Locally administered and not multicast: an address a host makes up and may rotate. */
  predicate IsPrivate(mac: Mac) {
    FirstOctet(mac) / 2 % 2 == 1 && FirstOctet(mac) % 2 == 0
  }

  /** The built-in table of manufacturers, by the first three octets. */
  function OuiVendor(oui: nat): string {
    match oui
    case 0x001A11 => "Google"
    case 0x001B63 => "Apple"
    case 0x001C42 => "Parallels"
    case 0x002248 => "Microsoft"
    case 0x002500 => "Apple"
    case 0x3C5A37 => "Samsung"
    case 0x3C7C3F => "Apple"
    case 0x44D9E7 => "Ubiquiti"
    case 0x544249 => "Sony"
    case 0x5C514F => "Intel"
    case 0x60F81D => "Apple"
    case 0x685B35 => "Apple"
    case 0x6C2995 => "Intel"
    case 0x70106F => "Hewlett Packard"
    case 0x74867A => "Dell"
    case 0x8C8590 => "Apple"
    case 0xA0CEC8 => "Cisco"
    case 0xA4B197 => "Apple"
    case 0xB827EB => "Raspberry Pi"
    case 0xBC2411 => "Apple"
    case 0xD85ED3 => "Apple"
    case 0xDC9B9C => "Apple"
    case 0xF0D1A9 => "Apple"
    case 0xF4F5D8 => "Google"
    case 0xFCECDA => "Ubiquiti"
    case _ => ""
  }

  function KnownVendor(mac: Mac): string {
    if IsPrivate(mac) then "" else OuiVendor(mac / 0x100_0000)
  }

  /** The vendor the scanner reports is preferred; the table is the fallback. */
  function VendorOf(mac: Mac, reported: string): string {
    if reported != "" then reported else KnownVendor(mac)
  }
}
