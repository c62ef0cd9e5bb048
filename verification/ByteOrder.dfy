/**
  swap64() and the conversions built on it.  A 64-bit value is its eight base-256 digits;
  the memory of the host holds them in one order or the other.
  */
module ByteOrder {

  type Byte = b: nat | b < 256
  type U64 = x: nat | x < 0x1_0000_0000_0000_0000

  /** The n lowest base-256 digits of x, lowest first. */
  function Digits(x: nat, n: nat): (d: seq<Byte>)
    ensures |d| == n
  {
    if n == 0 then [] else [x % 256] + Digits(x / 256, n - 1)
  }

  function Number(d: seq<Byte>): nat {
    if d == [] then 0 else d[0] + 256 * Number(d[1..])
  }

  function Reverse<T>(s: seq<T>): (r: seq<T>)
    ensures |r| == |s|
    ensures forall i | 0 <= i < |s| :: r[i] == s[|s| - 1 - i]
  {
    if s == [] then [] else Reverse(s[1..]) + [s[0]]
  }

  lemma ReverseTwice<T>(s: seq<T>)
    ensures Reverse(Reverse(s)) == s
  {
    assert forall i | 0 <= i < |s| :: Reverse(Reverse(s))[i] == Reverse(s)[|s| - 1 - i];
  }

  function Scale(n: nat): nat {
    if n == 0 then 1 else 256 * Scale(n - 1)
  }

  lemma {:induction false} NumberBound(d: seq<Byte>)
    ensures Number(d) < Scale(|d|)
  {
    if d != [] {
      NumberBound(d[1..]);
    }
  }

  lemma {:induction false} DigitsOfNumber(d: seq<Byte>)
    ensures Digits(Number(d), |d|) == d
  {
    if d != [] {
      DigitsOfNumber(d[1..]);
      assert Number(d) % 256 == d[0] && Number(d) / 256 == Number(d[1..]);
    }
  }

  lemma {:induction false} NumberOfDigits(x: nat, n: nat)
    requires x < Scale(n)
    ensures Number(Digits(x, n)) == x
  {
    if n > 0 {
      NumberOfDigits(x / 256, n - 1);
      assert Digits(x, n)[1..] == Digits(x / 256, n - 1);
    }
  }

  lemma Scale8()
    ensures Scale(8) == 0x1_0000_0000_0000_0000
  {
    assert Scale(2) == 0x1_0000;
    assert Scale(4) == 256 * 256 * Scale(2);
    assert Scale(6) == 256 * 256 * Scale(4);
    assert Scale(8) == 256 * 256 * Scale(6);
  }

  /* Values in memory */

  datatype Host = LittleEndian | BigEndian

  function Memory(x: U64, host: Host): (m: seq<Byte>)
    ensures |m| == 8
  {
    if host == LittleEndian then Digits(x, 8) else Reverse(Digits(x, 8))
  }

  function Loaded(m: seq<Byte>, host: Host): U64
    requires |m| == 8
  {
    NumberBound(m);
    NumberBound(Reverse(m));
    Scale8();
    if host == LittleEndian then Number(m) else Number(Reverse(m))
  }

  lemma LoadStore(x: U64, m: seq<Byte>, host: Host)
    requires |m| == 8
    ensures Loaded(Memory(x, host), host) == x
    ensures Memory(Loaded(m, host), host) == m
  {
    Scale8();
    NumberOfDigits(x, 8);
    ReverseTwice(Digits(x, 8));
    DigitsOfNumber(m);
    DigitsOfNumber(Reverse(m));
    ReverseTwice(m);
  }

  /** What swap64() is for: the value whose digits are those of x in the opposite order. */
  function Swapped(x: U64): U64 {
    Loaded(Reverse(Digits(x, 8)), LittleEndian)
  }

  lemma SwappedDigits(x: U64)
    ensures Digits(Swapped(x), 8) == Reverse(Digits(x, 8))
  {
    LoadStore(0, Reverse(Digits(x, 8)), LittleEndian);
  }

  lemma SwappedTwice(x: U64)
    ensures Swapped(Swapped(x)) == x
  {
    SwappedDigits(x);
    ReverseTwice(Digits(x, 8));
    LoadStore(x, Digits(x, 8), LittleEndian);
  }

  /** The loop of swap64(): two pointers move towards each other's start, one byte per turn.
      On either kind of host the result is the swapped value. */
  method Swap64(source: U64, host: Host) returns (result: U64)
    ensures result == Swapped(source)
    ensures Digits(result, 8) == Reverse(Digits(source, 8))
  {
    var memory := Memory(source, host);
    var s := new Byte[8](i requires 0 <= i < 8 => memory[i]);
    var r := new Byte[8];
    var to, from := 0, 0;
    from := from + 7;
    for i := 0 to 8
      invariant to == i && from == 7 - i
      invariant s[..] == memory
      invariant forall j | 0 <= j < i :: r[j] == memory[7 - j]
    {
      r[to] := s[from];
      to := to + 1;
      from := from - 1;
    }
    assert r[..] == Reverse(memory);
    result := Loaded(r[..], host);
    SwappedInMemory(source, host);
    SwappedDigits(source);
  }

  lemma SwappedInMemory(x: U64, host: Host)
    ensures Loaded(Reverse(Memory(x, host)), host) == Swapped(x)
  {
    ReverseTwice(Digits(x, 8));
  }

  /* dr_hton64() and dr_ntoh64(): the preprocessor chooses whether to swap */

  function HostToNetwork(x: U64, swaps: bool): U64 {
    if swaps then Swapped(x) else x
  }

  function NetworkToHost(x: U64, swaps: bool): U64 {
    if swaps then Swapped(x) else x
  }

  /** What is sent is received, on either branch. */
  lemma NetworkRoundTrip(x: U64, swaps: bool)
    ensures NetworkToHost(HostToNetwork(x, swaps), swaps) == x
    ensures HostToNetwork(NetworkToHost(x, swaps), swaps) == x
  {
    SwappedTwice(x);
  }

  /** The highest digit comes first in network order. */
  function NetworkOrder(x: U64): seq<Byte> {
    Reverse(Digits(x, 8))
  }

  /** The bytes in memory are in network order exactly when the branch suits the host, or the digits
      read the same both ways. */
  lemma NetworkOrderIff(x: U64, swaps: bool, host: Host)
    ensures Memory(HostToNetwork(x, swaps), host) == NetworkOrder(x) <==>
              swaps == (host == LittleEndian) || Reverse(Digits(x, 8)) == Digits(x, 8)
  {
    SwappedDigits(x);
    ReverseTwice(Digits(x, 8));
  }

  /** So two hosts of different kinds understand each other if each took the branch that suits it. */
  lemma BetweenHosts(x: U64, sender: Host, receiver: Host)
    ensures var wire := Memory(HostToNetwork(x, sender == LittleEndian), sender);
            NetworkToHost(Loaded(wire, receiver), receiver == LittleEndian) == x
  {
    var wire := Memory(HostToNetwork(x, sender == LittleEndian), sender);
    NetworkOrderIff(x, sender == LittleEndian, sender);
    assert wire == NetworkOrder(x);
    LoadStore(x, Digits(x, 8), LittleEndian);
    if receiver == LittleEndian {
      SwappedTwice(x);
    } else {
      ReverseTwice(Digits(x, 8));
    }
  }
}
