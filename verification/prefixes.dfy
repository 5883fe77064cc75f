/**
  IPv4 prefixes, netmasks and the abstract prefix table that the radix tree refines.

  An address is a 32-bit word. A prefix is the list of its first bits, most
  significant first, so the prefix 10.0.0.0/8 is the eight bits of the byte 10.
  Prefix notation follows section 3.1 of RFC 4632.
 */
module Prefixes {
  type Prefix = seq<bool>

  /** Marks "no value stored"; storing it leaves the prefix without an entry. */
  const NoValue: int := -1

  /** A table from prefixes to stored values: the meaning of a radix tree. */
  type Table = map<Prefix, int>

  /**
    The probe bit for depth `i`: bit `31 - i` of an address. It starts at the top
    bit and moves right one place per level, as the source's `bit >>= 1` does, so it
    is 0 from depth 32 on.
   */
  function BitAt(i: nat): bv32 {
    if i >= 32 then 0 else (0x8000_0000 as bv32) >> (i as bv5)
  }

  /** One level down the probe shifts right; it is 0 from depth 32 on. */
  lemma BitAtNext(i: nat)
    ensures BitAt(i + 1) == BitAt(i) >> 1
    ensures i + 1 >= 32 ==> BitAt(i + 1) == 0
  {
    if i < 31 {
      assert (0x8000_0000 as bv32) >> (i + 1) == ((0x8000_0000 as bv32) >> i) >> 1;
    }
  }

  /** The bit of `key` the tree branches on at depth `i`: true goes right. */
  predicate Bit(key: bv32, i: nat) {
    key & BitAt(i) != 0
  }

  /** The source's test `(key & bit) != 0` with the probe of depth `i` reads bit `i` of `key`. */
  lemma ProbeBit(key: bv32, bit: bv32, i: nat)
    requires bit == BitAt(i)
    ensures (key & bit != 0) == Bit(key, i)
  {
  }

  /** The first `n` bits of `key`. */
  function KeyPath(key: bv32, n: nat): (p: Prefix)
    ensures |p| == n
  {
    if n == 0 then [] else KeyPath(key, n - 1) + [Bit(key, n - 1)]
  }

  lemma {:induction false} KeyPathBits(key: bv32, n: nat, i: nat)
    requires i < n
    ensures KeyPath(key, n)[i] == Bit(key, i)
  {
    if i < n - 1 {
      KeyPathBits(key, n - 1, i);
    }
  }

  lemma {:induction false} KeyPathPrefix(key: bv32, j: nat, n: nat)
    requires j <= n
    ensures KeyPath(key, n)[..j] == KeyPath(key, j)
  {
    if j < n {
      KeyPathPrefix(key, j, n - 1);
      assert KeyPath(key, n)[..n - 1] == KeyPath(key, n - 1);
    }
  }

  /** Two keys have the same prefix of length `n` exactly when their first `n` bits agree. */
  lemma SamePrefix(k1: bv32, k2: bv32, n: nat)
    ensures KeyPath(k1, n) == KeyPath(k2, n) <==> forall i :: 0 <= i < n ==> Bit(k1, i) == Bit(k2, i)
  {
    forall i | 0 <= i < n
      ensures KeyPath(k1, n)[i] == Bit(k1, i) && KeyPath(k2, n)[i] == Bit(k2, i)
    {
      KeyPathBits(k1, n, i);
      KeyPathBits(k2, n, i);
    }
  }

  /**
    Length of the leading run of 1-bits of `mask`, counted from depth `d`: the
    number of levels the source's `put` descends, since it loops while `bit & mask`
    is non-zero.
   */
  function LeadingOnesFrom(mask: bv32, d: nat): (n: nat)
    requires d <= 32
    ensures d <= n <= 32
    decreases 32 - d
  {
    if d == 32 || !Bit(mask, d) then d else LeadingOnesFrom(mask, d + 1)
  }

  function LeadingOnes(mask: bv32): nat {
    LeadingOnesFrom(mask, 0)
  }

  /** The prefix `put(key, mask, v)` stores under. */
  function PutPath(key: bv32, mask: bv32): Prefix {
    KeyPath(key, LeadingOnes(mask))
  }

  /** Every bit above the run's end is set ... */
  lemma {:induction false} LeadingOnesAbove(mask: bv32, d: nat, i: nat)
    requires d <= 32 && d <= i < LeadingOnesFrom(mask, d)
    ensures Bit(mask, i)
    decreases 32 - d
  {
    if i > d {
      LeadingOnesAbove(mask, d + 1, i);
    }
  }

  /** ... and the bit at the run's end is clear. */
  lemma {:induction false} LeadingOnesEnd(mask: bv32, d: nat)
    requires d <= 32
    ensures LeadingOnesFrom(mask, d) < 32 ==> !Bit(mask, LeadingOnesFrom(mask, d))
    decreases 32 - d
  {
    if d < 32 && Bit(mask, d) {
      LeadingOnesEnd(mask, d + 1);
    }
  }

  /**
    The netmask of a CIDR length as the source computes it in 64-bit arithmetic:
    `((1 << (32 - cidr)) - 1) ^ 0xffffffff`, where `32 - cidr` is 32-bit and the
    shift uses its low six bits. Only the low 32 bits reach `put`.
   */
  function MaskOfCidr(cidr: bv32): bv32 {
    var shift := (32 - cidr) as bv64 & 63;
    (((((1 as bv64) << shift) - 1) ^ 0xffff_ffff) & 0xffff_ffff) as bv32
  }

  /** For 0 <= cidr <= 32 the netmask has exactly the top `cidr` bits set. */
  lemma MaskOfCidrBits(cidr: bv32, i: nat)
    requires cidr <= 32 && i < 32
    ensures Bit(MaskOfCidr(cidr), i) <==> i < cidr as int
  {
    MaskOfCidrShape(cidr);
    TopBits(cidr, i);
  }

  /** For 0 <= cidr <= 32 the 64-bit computation leaves the all-ones word shifted left by `32 - cidr`. */
  lemma MaskOfCidrShape(cidr: bv32)
    requires cidr <= 32
    ensures MaskOfCidr(cidr) == (0xFFFF_FFFF as bv32) << (32 - cidr)
  {
  }

  /** The all-ones word shifted left by `32 - c` has bit `i` set exactly for the top `c` depths. */
  lemma TopBits(c: bv32, i: nat)
    requires c <= 32 && i < 32
    ensures Bit((0xFFFF_FFFF as bv32) << (32 - c), i) <==> i < c as int
  {
    var k := i as bv5;
    IndexBits(i);
    TopBitsAt(c, k);
    IndexLess(k, c, i);
  }

  /** A depth below 32 survives the round trip through the shift amount's five bits. */
  lemma IndexBits(i: nat)
    requires i < 32
    ensures ((i as bv5) as bv32) as int == i
  {
  }

  lemma IndexLess(k: bv5, c: bv32, i: nat)
    requires (k as bv32) as int == i
    ensures k as bv32 < c <==> i < c as int
  {
  }

  lemma TopBitsAt(c: bv32, k: bv5)
    requires c <= 32
    ensures ((0xFFFF_FFFF as bv32) << (32 - c)) & ((0x8000_0000 as bv32) >> k) != 0 <==> k as bv32 < c
  {
  }

  lemma {:induction false} LeadingOnesOfCidrFrom(cidr: bv32, d: nat)
    requires cidr <= 32 && d <= cidr as int
    ensures LeadingOnesFrom(MaskOfCidr(cidr), d) == cidr as int
    decreases 32 - d
  {
    if d < cidr as int {
      MaskOfCidrBits(cidr, d);
      LeadingOnesOfCidrFrom(cidr, d + 1);
    } else if d < 32 {
      MaskOfCidrBits(cidr, d);
    }
  }

  /** `put` with the netmask of a CIDR length descends exactly that many levels. */
  lemma LeadingOnesOfCidr(cidr: bv32)
    requires cidr <= 32
    ensures LeadingOnes(MaskOfCidr(cidr)) == cidr as int
  {
    LeadingOnesOfCidrFrom(cidr, 0);
  }

  /** A set probe bit is the whole of the word's intersection with the probe. */
  lemma SingleBit(m: bv32, i: nat)
    requires Bit(m, i)
    ensures m & BitAt(i) == BitAt(i)
  {
  }

  lemma AndCommutes(a: bv32, b: bv32)
    ensures a & b == b & a
  {
  }

  lemma AndUnder(key: bv32, m: bv32, b: bv32)
    requires m & b == b
    ensures (key & m) & b == key & b
  {
  }

  /** Masking with the netmask of `cidr` keeps the bits above depth `cidr`. */
  lemma MaskedBit(key: bv32, cidr: bv32, i: nat)
    requires cidr <= 32 && i < cidr as int
    ensures Bit(key & MaskOfCidr(cidr), i) == Bit(key, i)
  {
    MaskOfCidrBits(cidr, i);
    SingleBit(MaskOfCidr(cidr), i);
    AndUnder(key, MaskOfCidr(cidr), BitAt(i));
  }

  /**
    `put` consults only the leading run of 1-bits of the mask and the key bits under
    it: `put(key, mask, v)` stores under the same prefix as
    `put(key & netmask(L), netmask(L), v)`, where `L` is that run's length.
   */
  lemma PutPathCanonical(key: bv32, mask: bv32, cidr: bv32)
    requires cidr as int == LeadingOnes(mask)
    ensures PutPath(key, mask) == PutPath(key & MaskOfCidr(cidr), MaskOfCidr(cidr))
  {
    LeadingOnesOfCidr(cidr);
    MaskedPrefix(key, cidr);
  }

  lemma MaskedPrefix(key: bv32, cidr: bv32)
    requires cidr <= 32
    ensures KeyPath(key, cidr as int) == KeyPath(key & MaskOfCidr(cidr), cidr as int)
  {
    var n := cidr as int;
    forall i | 0 <= i < n
      ensures Bit(key, i) == Bit(key & MaskOfCidr(cidr), i)
    {
      MaskedBit(key, cidr, i);
    }
    SamePrefix(key, key & MaskOfCidr(cidr), n);
  }

  /** A stored prefix is at most 32 bits long and does not map to `NoValue`. */
  predicate EntryOk(m: Table, p: Prefix) {
    p in m ==> |p| <= 32 && m[p] != NoValue
  }

  ghost predicate TableOk(m: Table) {
    forall p {:trigger EntryOk(m, p)} :: EntryOk(m, p)
  }

  /**
    `put` writes `value` at the node of `q`; writing `NoValue` there leaves no entry,
    since a node holding `NoValue` stores nothing.
   */
  function Store(m: Table, q: Prefix, value: int): Table {
    if value == NoValue then m - {q} else m[q := value]
  }

  lemma TableOkStore(m: Table, q: Prefix, value: int)
    requires TableOk(m) && |q| <= 32
    ensures TableOk(Store(m, q, value))
  {
    var m2 := Store(m, q, value);
    forall p
      ensures EntryOk(m2, p)
    {
      assert EntryOk(m, p);
    }
  }

  /** After a store, `q` reads the stored value and every other prefix reads as before. */
  lemma GetStore(m: Table, q: Prefix, value: int, p: Prefix)
    ensures Get(Store(m, q, value), p) == if p == q then value else Get(m, p)
  {
  }

  function Get(m: Table, p: Prefix): int {
    if p in m then m[p] else NoValue
  }

  /** The value of the longest prefix of `key` of length at most `n` stored in `m`. */
  function BestUpTo(m: Table, key: bv32, n: nat): int {
    if KeyPath(key, n) in m then m[KeyPath(key, n)]
    else if n == 0 then NoValue
    else BestUpTo(m, key, n - 1)
  }

  /** Longest-prefix match: the value of the longest stored prefix covering `key`. */
  function Best(m: Table, key: bv32): int {
    BestUpTo(m, key, 32)
  }

  /** The same, over prefixes strictly shorter than `d`. */
  function BestBelow(m: Table, key: bv32, d: nat): int {
    if d == 0 then NoValue else BestUpTo(m, key, d - 1)
  }

  /**
    `Best` is the longest match: it returns `NoValue` exactly when no prefix of `key`
    is stored, and otherwise the value of a stored prefix of length `j` such that
    no longer prefix is stored.
   */
  lemma {:induction false} BestUpToIsLongest(m: Table, key: bv32, n: nat) returns (j: int)
    requires TableOk(m)
    ensures -1 <= j <= n
    ensures j == -1 ==> BestUpTo(m, key, n) == NoValue && forall i :: 0 <= i <= n ==> KeyPath(key, i) !in m
    ensures j >= 0 ==> KeyPath(key, j) in m && BestUpTo(m, key, n) == m[KeyPath(key, j)] != NoValue
    ensures forall i :: j < i <= n ==> KeyPath(key, i) !in m
  {
    assert EntryOk(m, KeyPath(key, n));
    if KeyPath(key, n) in m {
      j := n;
    } else if n == 0 {
      j := -1;
    } else {
      j := BestUpToIsLongest(m, key, n - 1);
      forall i | j < i <= n
        ensures KeyPath(key, i) !in m
      {
        if i < n {
          assert j < i <= n - 1;
        }
      }
    }
  }

  lemma BestIsLongest(m: Table, key: bv32) returns (j: int)
    requires TableOk(m)
    ensures -1 <= j <= 32
    ensures j == -1 ==> Best(m, key) == NoValue && forall i :: 0 <= i <= 32 ==> KeyPath(key, i) !in m
    ensures j >= 0 ==> KeyPath(key, j) in m && Best(m, key) == m[KeyPath(key, j)] != NoValue
    ensures forall i :: j < i <= 32 ==> KeyPath(key, i) !in m
  {
    j := BestUpToIsLongest(m, key, 32);
  }

  /** A value stored under the empty prefix (mask 0) matches every key. */
  lemma {:induction false} RootMatchesAll(m: Table, key: bv32, n: nat)
    requires TableOk(m) && [] in m
    ensures BestUpTo(m, key, n) != NoValue
  {
    assert EntryOk(m, KeyPath(key, n));
    if KeyPath(key, n) !in m && n > 0 {
      RootMatchesAll(m, key, n - 1);
    }
  }

  /** Once no prefix of length `d` or more is stored, the match below `d` is the best one. */
  lemma {:induction false} BestBelowSuffices(m: Table, key: bv32, d: nat, n: nat)
    requires d <= n + 1
    requires forall i :: d <= i <= n ==> KeyPath(key, i) !in m
    ensures BestBelow(m, key, d) == BestUpTo(m, key, n)
  {
    if d <= n {
      assert KeyPath(key, n) !in m;
      if n > 0 {
        BestBelowSuffices(m, key, d, n - 1);
      }
    }
  }

  /** The best match is the stored prefix of `key` with no longer one stored above it. */
  lemma BestMatch(m: Table, key: bv32, n: nat)
    requires n <= 32 && KeyPath(key, n) in m
    requires forall i :: n < i <= 32 ==> KeyPath(key, i) !in m
    ensures Best(m, key) == m[KeyPath(key, n)]
  {
    BestBelowSuffices(m, key, n + 1, 32);
  }

  /** With no stored prefix of `key`, the lookup finds nothing. */
  lemma NoMatch(m: Table, key: bv32)
    requires forall i :: 0 <= i <= 32 ==> KeyPath(key, i) !in m
    ensures Best(m, key) == NoValue
  {
    BestBelowSuffices(m, key, 0, 32);
  }

  /** `put` with mask 0 stores at the empty prefix, so the value then matches every key. */
  lemma MaskZeroMatchesAll(m: Table, key: bv32, value: int, k: bv32)
    requires TableOk(m) && value != NoValue
    ensures PutPath(key, 0) == []
    ensures Best(Store(m, PutPath(key, 0), value), k) != NoValue
  {
    TableOkStore(m, [], value);
    RootMatchesAll(Store(m, [], value), k, 32);
  }
}
