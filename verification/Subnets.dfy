/** Moving addresses into another subnet. */
module Subnets {
  import opened Dns

  function Pow2(n: nat): (r: nat)
    ensures r > 0
  {
    if n == 0 then 1 else 2 * Pow2(n - 1)
  }

  lemma {:induction false} Pow2Add(m: nat, n: nat)
    ensures Pow2(m + n) == Pow2(m) * Pow2(n)
  {
    if m > 0 {
      Pow2Add(m - 1, n);
      DoubleProduct(Pow2(m - 1), Pow2(n));
    }
  }

  lemma DoubleProduct(a: nat, b: nat)
    ensures 2 * (a * b) == (2 * a) * b
  {
  }

  /** Bitwise conjunction. */
  function And(x: nat, y: nat): nat {
    if x == 0 || y == 0 then 0
    else 2 * And(x / 2, y / 2) + (if x % 2 == 1 && y % 2 == 1 then 1 else 0)
  }

  /** Masking with k one bits is the remainder modulo 2^k. */
  lemma {:induction false} AndMask(x: nat, k: nat)
    ensures And(x, Pow2(k) - 1) == x % Pow2(k)
  {
    if k > 0 {
      var m := Pow2(k - 1);
      AndMask(x / 2, k - 1);
      HalfMod(x, m);
    } else {
      assert Pow2(k) - 1 == 0;
    }
  }

  lemma HalfMod(x: nat, m: nat)
    requires m > 0
    ensures x % (2 * m) == 2 * ((x / 2) % m) + x % 2
  {
    var q, r := (x / 2) / m, (x / 2) % m;
    assert x / 2 == q * m + r;
    assert x == 2 * (q * m + r) + x % 2;
    assert 2 * (q * m + r) + x % 2 == q * (2 * m) + (2 * r + x % 2);
    ModUnique(2 * m, q, 2 * r + x % 2);
  }

  lemma ProductsOrdered(a: int, b: int, h: nat)
    ensures a <= b ==> a * h <= b * h
  {
    if a <= b {
      assert b * h - a * h == (b - a) * h;
    }
  }

  lemma ModUnique(h: nat, q: nat, r: nat)
    requires r < h
    ensures (q * h + r) % h == r && (q * h + r) / h == q
  {
    var n := q * h + r;
    var d := n / h;
    assert n == d * h + n % h;
    ProductsOrdered(q + 1, d, h);
    ProductsOrdered(d + 1, q, h);
    assert (q + 1) * h == q * h + h && (d + 1) * h == d * h + h;
  }

  lemma ModAtMost(x: nat, h: nat)
    requires h > 0
    ensures x % h <= x && x == (x / h) * h + x % h
  {
    ProductsOrdered(0, x / h, h);
  }

  /** A multiple of h below a multiple of h leaves room for h more. */
  lemma MultiplesApart(x: nat, h: nat, count: nat)
    requires h > 0 && x % h == 0 && x < count * h
    ensures x + h <= count * h
  {
    ModAtMost(x, h);
    var q := x / h;
    ProductsOrdered(count, q, h);
    ProductsOrdered(q + 1, count, h);
    assert (q + 1) * h == q * h + h;
  }

  /** Adding a remainder to a multiple: the sum is the only number in the block with that remainder. */
  lemma BlockMember(x: nat, h: nat, r: nat, y: nat)
    requires h > 0 && x % h == 0 && r < h
    ensures (x + r) % h == r
    ensures x <= y < x + h && y % h == r ==> y == x + r
  {
    ModAtMost(x, h);
    ModUnique(h, x / h, r);
    if x <= y < x + h {
      ModUnique(h, x / h, y - x);
    }
  }

  // ---------------------------------------------------------------------------------------------------------------
  // Addresses and networks
  // ---------------------------------------------------------------------------------------------------------------

  datatype Family = V4 | V6

  function Width(f: Family): nat {
    if f.V4? then 32 else 128
  }

  datatype Address = Address(family: Family, value: nat)
  datatype Network = Network(family: Family, address: nat, prefix: nat)

  predicate ValidAddress(a: Address) {
    a.value < Pow2(Width(a.family))
  }

  /** The number of addresses in the network. */
  function Size(n: Network): nat
    requires n.prefix <= Width(n.family)
  {
    Pow2(Width(n.family) - n.prefix)
  }

  predicate ValidNetwork(n: Network) {
    n.prefix <= Width(n.family) && n.address < Pow2(Width(n.family)) && n.address % Size(n) == 0
  }

  type Subnet = n: Network | ValidNetwork(n) witness Network(V4, 0, 0)

  /** The network that an address belongs to: the address with its host bits cleared. */
  function NetworkOf(a: Address, prefix: nat): Network
    requires prefix <= Width(a.family)
  {
    ModAtMost(a.value, Pow2(Width(a.family) - prefix));
    Network(a.family, a.value - a.value % Pow2(Width(a.family) - prefix), prefix)
  }

  predicate InNetwork(a: Address, n: Network)
    requires n.prefix <= Width(n.family)
  {
    a.family == n.family && n.address <= a.value < n.address + Size(n)
  }

  /** The address with this number, which is taken for an IPv4 address if it can be one. */
  function IpAddress(i: nat): Option<Address> {
    if i < Pow2(32) then Some(Address(V4, i)) else if i < Pow2(128) then Some(Address(V6, i)) else None
  }

  /** Addition fails beyond the width of the address. */
  function Plus(a: Address, i: nat): Option<Address> {
    if a.value + i < Pow2(Width(a.family)) then Some(Address(a.family, a.value + i)) else None
  }

  /** The network's address plus the address masked by the network's host mask; nothing stands for an exception. */
  function Replace(a: Address, n: Network): Option<Address>
    requires n.prefix <= Width(n.family)
  {
    match IpAddress(n.address)
    case None => None
    case Some(prefix) => Plus(prefix, And(a.value, Size(n) - 1))
  }

  function HostBits(a: Address, n: Network): nat
    requires n.prefix <= Width(n.family)
  {
    a.value % Size(n)
  }

  /** The number of the network is not taken for an IPv4 address unless it is one. */
  predicate KeepsFamily(n: Network) {
    n.family.V4? || n.address >= Pow2(32)
  }

  predicate IsMoved(a: Address, n: Network, b: Address)
    requires n.prefix <= Width(n.family)
  {
    InNetwork(b, n) && HostBits(b, n) == HostBits(a, n)
  }

  /** The addresses of a network share its first bits, and the rest are their host bits. */
  lemma InNetworkIff(a: Address, n: Network)
    requires ValidNetwork(n)
    ensures var width := if n.family == V4 then 32 else 128;
            && (InNetwork(a, n) <==> a.family == n.family
                                     && a.value / Pow2(width - n.prefix) == n.address / Pow2(width - n.prefix))
            && HostBits(a, n) == a.value % Pow2(width - n.prefix)
  {
    var h := Size(n);
    var p := n.address / h;
    ModAtMost(n.address, h);
    ModAtMost(a.value, h);
    ProductsOrdered(p, a.value / h, h);
    ProductsOrdered(a.value / h, p, h);
    if n.address <= a.value < n.address + h {
      ModUnique(h, p, a.value - n.address);
    }
  }

  /** A valid network ends within the address width. */
  lemma NetworkFits(n: Network)
    requires ValidNetwork(n)
    ensures n.address + Size(n) <= Pow2(Width(n.family))
  {
    Pow2Add(n.prefix, Width(n.family) - n.prefix);
    MultiplesApart(n.address, Size(n), Pow2(n.prefix));
  }

  lemma ReplaceSum(a: Address, n: Network)
    requires ValidAddress(a) && ValidNetwork(n) && a.family == n.family
    ensures var sum, family := n.address + HostBits(a, n), if KeepsFamily(n) then n.family else V4;
            Replace(a, n) == if sum < Pow2(Width(family)) then Some(Address(family, sum)) else None
    ensures HostBits(a, n) < Size(n)
  {
    hide Pow2, And;
    AndMask(a.value, Width(n.family) - n.prefix);
  }

  /** Unless an IPv6 network is taken for an IPv4 address, the replacement is the one address in the new network that has
      the same host bits, and a valid one. */
  lemma ReplaceExact(a: Address, n: Network, b: Address)
    requires ValidAddress(a) && ValidNetwork(n) && a.family == n.family && KeepsFamily(n)
    ensures Replace(a, n) == Some(b) <==> IsMoved(a, n, b)
    ensures Replace(a, n).Some? && ValidAddress(Replace(a, n).value)
  {
    hide Pow2, And, Replace;
    ReplaceSum(a, n);
    NetworkFits(n);
    BlockMember(n.address, Size(n), a.value % Size(n), b.value);
  }

  /** The result is an address in the new network with the same host bits if and only if the network's number is not taken
      for an IPv4 address. */
  lemma ReplaceIff(a: Address, n: Network)
    requires ValidAddress(a) && ValidNetwork(n) && a.family == n.family
    ensures (Replace(a, n).Some? && IsMoved(a, n, Replace(a, n).value)) <==> KeepsFamily(n)
    ensures Replace(a, n) == None <==> !KeepsFamily(n) && n.address + HostBits(a, n) >= Pow2(32)
  {
    hide Pow2, Replace;
    ReplaceSum(a, n);
    if KeepsFamily(n) {
      ReplaceExact(a, n, Address(n.family, n.address + HostBits(a, n)));
    }
  }

  lemma PowersOfTwo()
    ensures Pow2(32) == 0x1_0000_0000 && Pow2(64) == 0x1_0000_0000_0000_0000
    ensures Pow2(128) == 0x1_0000_0000_0000_0000_0000_0000_0000_0000
  {
    assert Pow2(4) == 16;
    hide Pow2;
    Squared(4, 16);
    Squared(8, 0x100);
    Squared(16, 0x1_0000);
    Squared(32, 0x1_0000_0000);
    Squared(64, 0x1_0000_0000_0000_0000);
  }

  lemma Squared(n: nat, value: nat)
    requires Pow2(n) == value
    ensures Pow2(2 * n) == value * value
  {
    hide Pow2;
    Pow2Add(n, n);
  }

  /** Moved into ::/64, the address 2001:db8::7 becomes 0.0.0.7, and 2001:db8::1:2:3:4 fails. */
  lemma LowNetworkFails()
    ensures var n, a := Network(V6, 0, 64), Address(V6, 0x20010db8_0000_0000_0000_0000_0000_0007);
            ValidNetwork(n) && ValidAddress(a) && Replace(a, n) == Some(Address(V4, 7))
    ensures var n, a := Network(V6, 0, 64), Address(V6, 0x20010db8_0000_0000_0001_0002_0003_0004);
            ValidAddress(a) && Replace(a, n) == None
  {
    hide Pow2, Replace;
    PowersOfTwo();
    ReplaceSum(Address(V6, 0x20010db8_0000_0000_0000_0000_0000_0007), Network(V6, 0, 64));
    ReplaceSum(Address(V6, 0x20010db8_0000_0000_0001_0002_0003_0004), Network(V6, 0, 64));
  }

  lemma NetworkOfValid(a: Address, prefix: nat)
    requires ValidAddress(a) && prefix <= Width(a.family)
    ensures ValidNetwork(NetworkOf(a, prefix)) && InNetwork(a, NetworkOf(a, prefix))
  {
    hide Pow2;
    var h := Pow2(Width(a.family) - prefix);
    ModAtMost(a.value, h);
    ModUnique(h, a.value / h, 0);
  }

  // ---------------------------------------------------------------------------------------------------------------
  // Lists of records
  // ---------------------------------------------------------------------------------------------------------------

  /** The records of the network's family, moved into the network; nothing stands for an exception. */
  function ReplaceIpSubnet(records: seq<Address>, n: Network): Option<seq<Address>>
    requires n.prefix <= Width(n.family)
  {
    if records == [] then Some([])
    else if records[0].family != n.family then ReplaceIpSubnet(records[1..], n)
    else match Replace(records[0], n)
      case None => None
      case Some(b) =>
        match ReplaceIpSubnet(records[1..], n)
        case None => None
        case Some(rest) => Some([b] + rest)
  }

  function OfFamily(records: seq<Address>, f: Family): seq<Address> {
    if records == [] then [] else (if records[0].family == f then [records[0]] else []) + OfFamily(records[1..], f)
  }

  /** The i-th result is in the network and has the host bits of the i-th record of the network's family. */
  predicate AreMoved(kept: seq<Address>, n: Network, moved: seq<Address>)
    requires n.prefix <= Width(n.family)
  {
    |moved| == |kept| && forall i :: 0 <= i < |moved| ==> ValidAddress(moved[i]) && IsMoved(kept[i], n, moved[i])
  }

  /** The records of the other family are dropped, and the rest keep their order and are moved into the network, if and only
      if the network's number is not taken for an IPv4 address or there is nothing to move. */
  lemma {:induction false} ReplaceListIff(records: seq<Address>, n: Network)
    requires ValidNetwork(n) && forall a :: a in records ==> ValidAddress(a)
    ensures var kept, moved := OfFamily(records, n.family), ReplaceIpSubnet(records, n);
            && (moved.Some? && AreMoved(kept, n, moved.value) <==> KeepsFamily(n) || kept == [])
            && (kept == [] ==> moved == Some([]))
  {
    hide Pow2, Replace, KeepsFamily, ValidAddress;
    if records != [] {
      var a := records[0];
      ReplaceListIff(records[1..], n);
      if a.family == n.family {
        ReplaceIff(a, n);
        if KeepsFamily(n) {
          ReplaceExact(a, n, Replace(a, n).value);
        } else if ReplaceIpSubnet(records, n).Some? {
          assert ReplaceIpSubnet(records, n).value[0] == Replace(a, n).value;
        }
      }
    }
  }

  /** When replacing fails with an exception. */
  lemma {:induction false} ReplaceListRaises(records: seq<Address>, n: Network)
    requires ValidNetwork(n) && forall a :: a in records ==> ValidAddress(a)
    ensures ReplaceIpSubnet(records, n) == None
       <==> !KeepsFamily(n) && exists a :: a in records && a.family == n.family && n.address + HostBits(a, n) >= Pow2(32)
  {
    hide Pow2, Replace, KeepsFamily, ValidAddress;
    if records != [] {
      ReplaceListRaises(records[1..], n);
      assert forall a :: a in records <==> a == records[0] || a in records[1..];
      if records[0].family == n.family {
        ReplaceIff(records[0], n);
      }
    }
  }

  function ReplaceAgain(first: Option<seq<Address>>, n: Network): Option<seq<Address>>
    requires n.prefix <= Width(n.family)
  {
    match first case None => None case Some(records) => ReplaceIpSubnet(records, n)
  }

  /** Where the family is kept, the replacement of a list of that family is the list of moved addresses. */
  lemma {:induction false} MovedList(kept: seq<Address>, n: Network, moved: seq<Address>)
    requires ValidNetwork(n) && KeepsFamily(n) && forall a :: a in kept ==> ValidAddress(a) && a.family == n.family
    requires AreMoved(kept, n, moved)
    ensures ReplaceIpSubnet(kept, n) == Some(moved)
  {
    hide Pow2, Replace, KeepsFamily, ValidAddress;
    if kept != [] {
      ReplaceExact(kept[0], n, moved[0]);
      assert moved == [moved[0]] + moved[1..];
      MovedList(kept[1..], n, moved[1..]);
    }
  }

  lemma {:induction false} FamilyDropped(records: seq<Address>, n: Network)
    requires n.prefix <= Width(n.family) && forall a :: a in records ==> a.family != n.family
    ensures ReplaceIpSubnet(records, n) == Some([]) && OfFamily(records, n.family) == []
  {
    if records != [] {
      FamilyDropped(records[1..], n);
    }
  }

  /** What comes out of a low IPv6 network is IPv4. */
  lemma {:induction false} LowNetworkYieldsV4(records: seq<Address>, n: Network)
    requires ValidNetwork(n) && !KeepsFamily(n) && forall a :: a in records ==> ValidAddress(a)
    ensures ReplaceIpSubnet(records, n).Some? ==>
              && |ReplaceIpSubnet(records, n).value| == |OfFamily(records, n.family)|
              && forall b :: b in ReplaceIpSubnet(records, n).value ==> b.family == V4
  {
    hide Pow2, Replace, ValidAddress;
    if records != [] {
      LowNetworkYieldsV4(records[1..], n);
      if records[0].family == n.family {
        ReplaceSum(records[0], n);
      }
    }
  }

  /** Replacing twice is replacing once, if and only if the family is kept or there is nothing to move. */
  lemma ReplaceTwiceIff(records: seq<Address>, n: Network)
    requires ValidNetwork(n) && forall a :: a in records ==> ValidAddress(a)
    ensures var once := ReplaceIpSubnet(records, n);
            once.Some? && ReplaceAgain(once, n) == once <==> KeepsFamily(n) || OfFamily(records, n.family) == []
  {
    hide Pow2, Replace;
    var once := ReplaceIpSubnet(records, n);
    ReplaceListIff(records, n);
    if KeepsFamily(n) {
      var moved := once.value;
      forall b | b in moved ensures ValidAddress(b) && b.family == n.family {
        var i :| 0 <= i < |moved| && moved[i] == b;
      }
      MovedList(moved, n, moved);
    } else if once.Some? {
      LowNetworkYieldsV4(records, n);
      FamilyDropped(once.value, n);
    }
  }

  /** Moving an address to another network of the same size and back restores it, if and only if both networks keep the
      family. */
  lemma ReplaceBackIff(a: Address, n: Network)
    requires ValidAddress(a) && ValidNetwork(n) && a.family == n.family
    ensures ReplaceAgain(ReplaceIpSubnet([a], n), NetworkOf(a, n.prefix)) == Some([a])
       <==> KeepsFamily(n) && KeepsFamily(NetworkOf(a, n.prefix))
  {
    hide Pow2, Replace, ReplaceIpSubnet, NetworkOf, ValidAddress;
    var home := NetworkOf(a, n.prefix);
    NetworkOfValid(a, n.prefix);
    SameSize(a, n.prefix);
    ReplaceOne(a, n);
    ReplaceIff(a, n);
    if Replace(a, n).Some? {
      var b := Replace(a, n).value;
      ReplaceSum(a, n);
      ReplaceOne(b, home);
      if KeepsFamily(n) {
        ReplaceExact(a, n, b);
        ReplaceIff(b, home);
        assert IsMoved(b, home, a);
        if KeepsFamily(home) {
          ReplaceExact(b, home, a);
        } else {
          assert Replace(b, home) != Some(a);
        }
      } else {
        assert ReplaceIpSubnet([b], home) == Some([]);
      }
    }
  }

  lemma SameSize(a: Address, prefix: nat)
    requires prefix <= Width(a.family)
    ensures NetworkOf(a, prefix).family == a.family && NetworkOf(a, prefix).prefix == prefix
  {
  }

  lemma ReplaceOne(a: Address, n: Network)
    requires n.prefix <= Width(n.family)
    ensures ReplaceIpSubnet([a], n)
         == if a.family != n.family then Some([])
            else match Replace(a, n) case None => None case Some(b) => Some([b])
  {
    assert [a][1..] == [] && ReplaceIpSubnet([], n) == Some([]);
    if a.family == n.family && Replace(a, n).Some? {
      assert [Replace(a, n).value] + [] == [Replace(a, n).value];
    }
  }
}
