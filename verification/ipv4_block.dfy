/**
 * The part of the iplib library's Net4 that GetFreeIp relies on: a block's
 * first usable address and stepping to the next address. iplib is not part of
 * this model; its behaviour is stated here as the model assumes it
 * (RFC 3021: a /31 or /32 block has no broadcast address and its first
 * address is the network address).
 */
module Ipv4Block {

  /** Number of IPv4 addresses, 2^32. */
  const AddressSpace: nat := 0x1_0000_0000

  function Pow2(n: nat): (r: nat)
    ensures r >= 1
  {
    if n == 0 then 1 else 2 * Pow2(n - 1)
  }

  lemma {:induction false} Pow2AtLeastFour(n: nat)
    requires n >= 2
    ensures Pow2(n) >= 4
  {
    if n > 2 {
      Pow2AtLeastFour(n - 1);
    }
  }

  /** Why NextIP refused to advance. */
  datatype NextIpError = AddressOutOfRange | BroadcastAddress

  datatype NextIp = Advanced(ip: nat) | NoNextIp(error: NextIpError)

  /** An IPv4 network: network address (as a 32-bit number) and prefix length. */
  datatype Net4 = Net4(network: nat, prefix: nat) {

    /** A real IPv4 block: prefix at most 32, aligned, inside the address space. */
    predicate Valid() {
      prefix <= 32 && network % Size() == 0 && network + Size() <= AddressSpace
    }

    /** Number of addresses in the block. */
    function Size(): nat {
      if prefix <= 32 then Pow2(32 - prefix) else 1
    }

    /** The last address of the block (the broadcast address when prefix < 31). */
    function Broadcast(): nat {
      network + Size() - 1
    }

    predicate Contains(ip: nat) {
      network <= ip <= Broadcast()
    }

    /** Net4.FirstAddress: the first usable address. */
    function FirstAddress(): nat {
      if prefix >= 31 then network else network + 1
    }

    /** The last address a search may be handed: the broadcast address is never usable below /31. */
    function LastUsable(): nat {
      if prefix >= 31 then Broadcast() else Broadcast() - 1
    }

    /** Net4.NextIP: the following address, refused outside the block and at the broadcast address. */
    function NextIP(ip: nat): (r: NextIp)
      ensures r.Advanced? ==> r.ip == ip + 1 && Contains(r.ip) && r.ip <= LastUsable()
    {
      if !Contains(ip) || !Contains(ip + 1) then NoNextIp(AddressOutOfRange)
      else if prefix < 31 && ip + 1 == Broadcast() then NoNextIp(BroadcastAddress)
      else Advanced(ip + 1)
    }
  }

  /** A block as iplib.Net4FromStr builds it from a CIDR that net.ParseCIDR accepted. */
  type Block = b: Net4 | b.Valid() witness Net4(0, 32)

  /** The first usable address lies in the block and is not past the last usable one. */
  lemma FirstAddressUsable(b: Block)
    ensures b.Contains(b.FirstAddress()) && b.FirstAddress() <= b.LastUsable()
  {
    if b.prefix < 31 {
      Pow2AtLeastFour(32 - b.prefix);
    }
  }
}
