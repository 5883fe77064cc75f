/**
  The trie's inclusion test case: a /24 network stored under 42 inside a /8 network
  stored under 69. An address inside the /24 gets 42, one inside the /8 only gets 69,
  and one outside both gets `NoValue`.
 */
module CidrExample {
  import opened Prefixes
  import opened RadixTree

  const Net: bv32 := 0x0a00_0000
  const Mask24: bv32 := 0xffff_ff00
  const Mask8: bv32 := 0xff00_0000

  /** The prefix of `Net` under the netmask of `cidr`: its first `cidr` bits. */
  lemma NetPath(cidr: bv32, mask: bv32)
    requires cidr <= 32 && mask == MaskOfCidr(cidr)
    ensures PutPath(Net, mask) == KeyPath(Net, cidr as int)
  {
    LeadingOnesOfCidr(cidr);
  }

  /** Keys that agree with `Net` under the netmask of `cidr` share its first `cidr` bits. */
  lemma SharesNet(key: bv32, cidr: bv32)
    requires cidr <= 32 && key & MaskOfCidr(cidr) == Net & MaskOfCidr(cidr)
    ensures KeyPath(key, cidr as int) == KeyPath(Net, cidr as int)
  {
    MaskedPrefix(key, cidr);
    MaskedPrefix(Net, cidr);
  }

  /** Keys that differ from `Net` at bit `j` leave its prefixes longer than `j`. */
  lemma LeavesNet(key: bv32, j: nat, n: nat)
    requires j < n && Bit(key, j) != Bit(Net, j)
    ensures KeyPath(key, n) != KeyPath(Net, n)
  {
    KeyPathBits(key, n, j);
    KeyPathBits(Net, n, j);
  }

  /** The table after `put(Net, Mask24, 42)` and then `put(Net, Mask8, 69)`. */
  ghost function Nets(): Table {
    map[KeyPath(Net, 24) := 42, KeyPath(Net, 8) := 69]
  }

  lemma StoredNets()
    ensures Store(Store(map[], KeyPath(Net, 24), 42), KeyPath(Net, 8), 69) == Nets()
  {
  }

  lemma InsideSlash8Only()
    ensures Best(Nets(), 0x0a20_2020) == 69
  {
    SharesNet(0x0a20_2020, 8);
    LeavesNet(0x0a20_2020, 10, 24);
    BestMatch(Nets(), 0x0a20_2020, 8);
  }

  lemma InsideSlash24()
    ensures Best(Nets(), 0x0a00_0020) == 42
  {
    SharesNet(0x0a00_0020, 24);
    BestMatch(Nets(), 0x0a00_0020, 24);
  }

  lemma OutsideBoth()
    ensures Best(Nets(), 0x0b01_0203) == NoValue
  {
    LeavesNet(0x0b01_0203, 7, 8);
    LeavesNet(0x0b01_0203, 7, 24);
    NoMatch(Nets(), 0x0b01_0203);
  }

  /** The test case itself: a tree of capacity 100, two puts and three lookups. */
  method CidrInclusion() returns (a: int, b: int, c: int)
    ensures a == 69 && b == 42 && c == NoValue
  {
    assert Mask24 == MaskOfCidr(24) && Mask8 == MaskOfCidr(8);
    NetPath(24, Mask24);
    NetPath(8, Mask8);
    var t := Init(100);
    t := Put(t, Net, Mask24, 42, map[]);
    t := Put(t, Net, Mask8, 69, Store(map[], KeyPath(Net, 24), 42));
    StoredNets();
    InsideSlash8Only();
    InsideSlash24();
    OutsideBoth();
    a := SelectValue(t, 0x0a20_2020, Nets());
    b := SelectValue(t, 0x0a00_0020, Nets());
    c := SelectValue(t, 0x0b01_0203, Nets());
  }
}
