/** internal/storage/nodes.go: choosing the next overlay address. */
module Overlay {
  import opened Prelude
  import opened Routing

  /** A parsed IPv4 network: its masked base address and prefix length (RFC 4632, section 3.1). */
  datatype Cidr4 = Cidr4(network: nat, prefix: nat)

  function Pow2(n: nat): nat {
    if n == 0 then 1 else 2 * Pow2(n - 1)
  }

  /** Addresses per network of this prefix. */
  function BlockSize(prefix: nat): nat
    requires prefix <= 32
  {
    Pow2(32 - prefix)
  }

  ghost predicate ValidCidr(c: Cidr4) {
    c.prefix <= 32 && c.network < 0x1_0000_0000 && BlockSize(c.prefix) > 0 && c.network % BlockSize(c.prefix) == 0
  }

  // ----- dotted decimal -----

  function Digit(n: nat): char
    requires n < 10
  {
    "0123456789"[n]
  }

  /** An octet in decimal, without leading zeros. */
  function Octet(n: nat): string
    requires n < 256
  {
    if n < 10 then [Digit(n)]
    else if n < 100 then [Digit(n / 10), Digit(n % 10)]
    else [Digit(n / 100), Digit(n / 10 % 10), Digit(n % 10)]
  }

  function Dotted(a: nat, b: nat, c: nat, d: nat): string
    requires a < 256 && b < 256 && c < 256 && d < 256
  {
    Octet(a) + "." + Octet(b) + "." + Octet(c) + "." + Octet(d)
  }

  predicate PlainChar(c: char) {
    '0' <= c <= '9' || c == '.'
  }

  /** Digits and dots only: nothing to trim and no prefix length of its own. */
  predicate PlainAddress(s: string) {
    s != "" && forall i :: 0 <= i < |s| ==> PlainChar(s[i])
  }

  lemma OctetPlain(n: nat)
    requires n < 256
    ensures PlainAddress(Octet(n))
  {
  }

  lemma DottedPlain(a: nat, b: nat, c: nat, d: nat)
    requires a < 256 && b < 256 && c < 256 && d < 256
    ensures PlainAddress(Dotted(a, b, c, d))
  {
    OctetPlain(a);
    OctetPlain(b);
    OctetPlain(c);
    OctetPlain(d);
    JoinPlain(Octet(a), Octet(b));
    JoinPlain(Octet(a) + "." + Octet(b), Octet(c));
    JoinPlain(Octet(a) + "." + Octet(b) + "." + Octet(c), Octet(d));
  }

  lemma JoinPlain(s: string, t: string)
    requires PlainAddress(s) && PlainAddress(t)
    ensures PlainAddress(s + "." + t)
  {
  }

  lemma DigitsDiffer(m: nat, n: nat)
    requires m < 10 && n < 10 && Digit(m) == Digit(n)
    ensures m == n
  {
    var ds := "0123456789";
    assert forall i, j :: 0 <= i < j < 10 ==> ds[i] != ds[j];
  }

  lemma OctetsDiffer(m: nat, n: nat)
    requires m < 256 && n < 256 && Octet(m) == Octet(n)
    ensures m == n
  {
    if m < 10 {
      DigitsDiffer(m, n);
    } else if m < 100 {
      assert Octet(m)[0] == Octet(n)[0] && Octet(m)[1] == Octet(n)[1];
      DigitsDiffer(m / 10, n / 10);
      DigitsDiffer(m % 10, n % 10);
    } else {
      assert Octet(m)[0] == Octet(n)[0] && Octet(m)[1] == Octet(n)[1] && Octet(m)[2] == Octet(n)[2];
      DigitsDiffer(m / 100, n / 100);
      DigitsDiffer(m / 10 % 10, n / 10 % 10);
      DigitsDiffer(m % 10, n % 10);
    }
  }

  lemma OctetHasNoDot(n: nat)
    requires n < 256
    ensures '.' !in Octet(n)
  {
  }

  lemma NoEarlierDot(s: string, t: string, i: int)
    requires '.' !in s && 0 <= i < |s|
    ensures (s + "." + t)[i] != '.'
  {
    assert (s + "." + t)[i] == s[i];
  }

  /** What stands before the first dot is determined. */
  lemma SplitAtDot(s: string, t: string, u: string, v: string)
    requires '.' !in s && '.' !in u && s + "." + t == u + "." + v
    ensures s == u && t == v
  {
    var a, b := s + "." + t, u + "." + v;
    assert a[|s|] == '.' && b[|u|] == '.';
    if |s| < |u| {
      NoEarlierDot(u, v, |s|);
    } else if |u| < |s| {
      NoEarlierDot(s, t, |u|);
    }
    assert s == a[..|s|] && u == b[..|u|];
    assert t == a[|s| + 1..] && v == b[|u| + 1..];
  }

  /** Different addresses are written differently. */
  lemma DottedDiffer(a: nat, b: nat, c: nat, d: nat, a': nat, b': nat, c': nat, d': nat)
    requires a < 256 && b < 256 && c < 256 && d < 256 && a' < 256 && b' < 256 && c' < 256 && d' < 256
    requires Dotted(a, b, c, d) == Dotted(a', b', c', d')
    ensures a == a' && b == b' && c == c' && d == d'
  {
    OctetHasNoDot(a);
    OctetHasNoDot(a');
    OctetHasNoDot(b);
    OctetHasNoDot(b');
    OctetHasNoDot(c);
    OctetHasNoDot(c');
    var r3, r3' := Octet(c) + "." + Octet(d), Octet(c') + "." + Octet(d');
    var r2, r2' := Octet(b) + "." + r3, Octet(b') + "." + r3';
    DottedTail(a, b, c, d);
    DottedTail(a', b', c', d');
    SplitAtDot(Octet(a), r2, Octet(a'), r2');
    SplitAtDot(Octet(b), r3, Octet(b'), r3');
    SplitAtDot(Octet(c), Octet(d), Octet(c'), Octet(d'));
    OctetsDiffer(a, a');
    OctetsDiffer(b, b');
    OctetsDiffer(c, c');
    OctetsDiffer(d, d');
  }

  lemma DottedTail(a: nat, b: nat, c: nat, d: nat)
    requires a < 256 && b < 256 && c < 256 && d < 256
    ensures Dotted(a, b, c, d) == Octet(a) + "." + (Octet(b) + "." + (Octet(c) + "." + Octet(d)))
  {
  }

  /** Plain addresses become /32 routes, and different ones stay different. */
  lemma PlainCidr(s: string)
    requires PlainAddress(s)
    ensures EnsureHostCIDR(s) == s + "/32"
  {
  }

  // ----- candidates -----

  /** The last host number the loop tries. */
  const LAST_TRIED := 65533

  /** Candidate `i`: the upper half of the network address, then `i` as two octets. */
  function Candidate(c: Cidr4, i: nat): nat {
    c.network / 65536 * 65536 + i
  }

  predicate Contains(c: Cidr4, address: nat)
    requires c.prefix <= 32 && BlockSize(c.prefix) > 0
  {
    address / BlockSize(c.prefix) == c.network / BlockSize(c.prefix)
  }

  /** Its text: two octets of the network, then byte(i >> 8) and byte(i). */
  function Render(c: Cidr4, i: nat): string {
    Dotted(c.network / 0x100_0000 % 256, c.network / 65536 % 256, i / 256 % 256, i % 256)
  }

  /** How many of the candidates 1, 2, ... lie in the network before the first that does not. */
  function CandidateCount(c: Cidr4): int
    requires c.prefix <= 32
  {
    if c.prefix <= 16 then LAST_TRIED
    else if c.network % 65536 == 0 then Min(LAST_TRIED, BlockSize(c.prefix) - 1)
    else if c.prefix == 32 && c.network % 65536 == 1 then 1
    else 0
  }

  lemma {:induction false} PowSplit(m: nat, n: nat)
    ensures Pow2(m + n) == Pow2(m) * Pow2(n) && Pow2(m) >= 1
  {
    if m > 0 {
      PowSplit(m - 1, n);
      assert m + n - 1 == (m - 1) + n;
    }
  }

  lemma Pow16()
    ensures Pow2(16) == 65536
  {
    assert Pow2(4) == 16;
    PowSplit(4, 4);
    PowSplit(8, 8);
  }

  lemma BlockPositive(prefix: nat)
    requires prefix <= 32
    ensures BlockSize(prefix) >= 1
  {
    PowSplit(32 - prefix, 0);
  }

  lemma NoSmallMultiple(d: int, s: int)
    requires s > 0 && -s < d * s < s
    ensures d == 0
  {
  }

  lemma QuotientUnique(x: int, q: int, r: int, s: int)
    requires s > 0 && 0 <= r < s && x == q * s + r
    ensures x / s == q && x % s == r
  {
    var d := x / s - q;
    assert x == x / s * s + x % s;
    assert d * s == x / s * s - q * s;
    NoSmallMultiple(d, s);
  }

  lemma DivideShifted(h: nat, i: nat, s: nat)
    requires s > 0
    ensures (h * s + i) / s == h + i / s
  {
    assert h * s + i == (h + i / s) * s + i % s;
    QuotientUnique(h * s + i, h + i / s, i % s, s);
  }

  /** Prefixes up to 16 contain every candidate; longer ones those in the low block of the base. */
  lemma ContainsIff(c: Cidr4, i: nat)
    requires ValidCidr(c) && i < 65536
    ensures c.prefix <= 16 ==> Contains(c, Candidate(c, i))
    ensures c.prefix > 16 ==>
              (Contains(c, Candidate(c, i)) <==> i / BlockSize(c.prefix) == c.network % 65536 / BlockSize(c.prefix))
  {
    var s := BlockSize(c.prefix);
    var hi, low := c.network / 65536, c.network % 65536;
    Pow16();
    assert c.network == hi * 65536 + low;
    if c.prefix <= 16 {
      PowSplit(16 - c.prefix, 16);
      var k := Pow2(16 - c.prefix);
      WideBlock(hi, low, k);
      WideBlock(hi, i, k);
    } else {
      PowSplit(c.prefix - 16, 32 - c.prefix);
      var k := Pow2(c.prefix - 16);
      assert 65536 == k * s;
      NarrowBlock(hi, low, k, s);
      NarrowBlock(hi, i, k, s);
    }
  }

  lemma WideBlock(hi: nat, i: nat, k: nat)
    requires k > 0 && i < 65536
    ensures (hi * 65536 + i) / (k * 65536) == hi / k
  {
    var r := hi % k * 65536 + i;
    assert hi == hi / k * k + hi % k;
    assert hi * 65536 + i == hi / k * (k * 65536) + r;
    QuotientUnique(hi * 65536 + i, hi / k, r, k * 65536);
  }

  lemma NarrowBlock(hi: nat, i: nat, k: nat, s: nat)
    requires s > 0 && 65536 == k * s
    ensures (hi * 65536 + i) / s == hi * k + i / s
  {
    assert hi * 65536 == hi * k * s;
    DivideShifted(hi * k, i, s);
  }

  /** Exactly the first CandidateCount candidates lie in the network. */
  lemma CandidatesExact(c: Cidr4, i: nat)
    requires ValidCidr(c) && 1 <= i <= LAST_TRIED
    ensures 0 <= CandidateCount(c) <= LAST_TRIED
    ensures i <= CandidateCount(c) ==> Contains(c, Candidate(c, i))
    ensures i == CandidateCount(c) + 1 ==> !Contains(c, Candidate(c, i))
  {
    ContainsIff(c, i);
    BlockPositive(c.prefix);
    if c.prefix > 16 {
      var s := BlockSize(c.prefix);
      var low := c.network % 65536;
      if low == 0 {
        FirstBlock(i, s);
      } else {
        LowBlock(c);
        OtherBlock(i, low, s);
        OneAddress(c.prefix);
      }
    }
  }

  lemma FirstBlock(i: nat, s: nat)
    requires s > 0
    ensures i / s == 0 / s <==> i < s
  {
    QuotientUnique(0, 0, 0, s);
    if i < s { QuotientUnique(i, 0, i, s); } else { DivideShifted(1, i - s, s); }
  }

  /** In a block that does not start at 0, the walk from 1 finds nothing, unless the block is {1}. */
  lemma OtherBlock(i: nat, low: nat, s: nat)
    requires s > 0 && low > 0 && low == low / s * s && 1 <= i
    ensures s == 1 ==> (i / s == low / s <==> i == low)
    ensures s >= 2 && i == 1 ==> i / s != low / s
  {
    if s >= 2 && i == 1 { QuotientUnique(i, 0, i, s); }
  }

  lemma OneAddress(prefix: nat)
    requires prefix <= 32
    ensures BlockSize(prefix) == 1 <==> prefix == 32
  {
    if prefix < 32 { PowSplit(31 - prefix, 0); }
  }

  /** A masked base address is a whole number of blocks, also in its low half. */
  lemma LowBlock(c: Cidr4)
    requires ValidCidr(c) && c.prefix > 16
    ensures var s := BlockSize(c.prefix); c.network % 65536 == c.network % 65536 / s * s
  {
    Pow16();
    PowSplit(c.prefix - 16, 32 - c.prefix);
    LowMultiple(c.network / 65536, c.network % 65536, Pow2(c.prefix - 16), BlockSize(c.prefix));
  }

  lemma LowMultiple(hi: nat, low: nat, k: nat, s: nat)
    requires s > 0 && 65536 == k * s && (hi * 65536 + low) % s == 0
    ensures low == low / s * s
  {
    var q := hi * k + low / s;
    assert hi * 65536 == hi * k * s;
    assert low == low / s * s + low % s;
    assert q * s == hi * k * s + low / s * s;
    QuotientUnique(hi * 65536 + low, q, low % s, s);
  }

  /** Networks whose base ends in two zero octets contain exactly the candidates up to their last host number. */
  lemma CountOfAlignedNetwork(c: Cidr4, i: nat)
    requires ValidCidr(c) && c.prefix >= 16 && c.network % 65536 == 0 && 1 <= i <= LAST_TRIED
    ensures CandidateCount(c) == Min(LAST_TRIED, Pow2(32 - c.prefix) - 1)
    ensures Contains(c, Candidate(c, i)) <==> i <= Pow2(32 - c.prefix) - 1
  {
    Pow16();
    ContainsIff(c, i);
    BlockPositive(c.prefix);
    FirstBlock(i, BlockSize(c.prefix));
  }

  lemma RenderPlain(c: Cidr4, i: nat)
    requires ValidCidr(c)
    ensures PlainAddress(Render(c, i))
  {
    DottedPlain(c.network / 0x100_0000 % 256, c.network / 65536 % 256, i / 256 % 256, i % 256);
  }

  /** Candidate number i of `c` is `ip`, it is free, and all candidates before it are taken. */
  ghost predicate LeastUnused(c: Cidr4, used: set<string>, ip: string)
    requires ValidCidr(c)
  {
    ip !in used && exists i :: 1 <= i <= CandidateCount(c) && ip == Render(c, i) && AllUsed(c, used, i)
  }

  /** The candidates before number `end` are taken. */
  ghost predicate AllUsed(c: Cidr4, used: set<string>, end: int) {
    forall j :: 1 <= j < end ==> Render(c, j) in used
  }

  lemma OneMoreUsed(c: Cidr4, used: set<string>, i: nat)
    requires AllUsed(c, used, i) && Render(c, i) in used
    ensures AllUsed(c, used, i + 1)
  {
    forall j | 1 <= j < i + 1 ensures Render(c, j) in used {
      if j == i { assert Render(c, j) == Render(c, i); }
    }
  }

  lemma FoundLeast(c: Cidr4, used: set<string>, i: nat)
    requires ValidCidr(c) && 1 <= i <= CandidateCount(c) && AllUsed(c, used, i) && Render(c, i) !in used
    ensures LeastUnused(c, used, Render(c, i)) && !Exhausted(Some(c), used) && PlainAddress(Render(c, i))
  {
    RenderPlain(c, i);
  }

  /** No candidate of the network is free. */
  ghost predicate Exhausted(cidr: Option<Cidr4>, used: set<string>)
    requires cidr.Some? ==> ValidCidr(cidr.value)
  {
    cidr.None? || AllUsed(cidr.value, used, CandidateCount(cidr.value) + 1)
  }

  /** The candidates are that many different addresses. */
  lemma CandidatesDiffer(c: Cidr4, i: nat, j: nat)
    requires i < 65536 && j < 65536 && Render(c, i) == Render(c, j)
    ensures i == j
  {
    var x, y := c.network / 0x100_0000 % 256, c.network / 65536 % 256;
    DottedDiffer(x, y, i / 256 % 256, i % 256, x, y, j / 256 % 256, j % 256);
  }

  /** The values of `f` at 1, ..., k. */
  ghost function Values(f: nat -> string, k: nat): set<string> {
    if k == 0 then {} else Values(f, k - 1) + {f(k)}
  }

  lemma {:induction false} ValueAt(f: nat -> string, k: nat, s: string) returns (j: nat)
    requires s in Values(f, k)
    ensures 1 <= j <= k && s == f(j)
  {
    if s == f(k) {
      j := k;
    } else {
      j := ValueAt(f, k - 1, s);
    }
  }

  lemma {:induction false} ValueCount(f: nat -> string, k: nat)
    requires forall i: nat, j: nat :: 1 <= i < j <= k ==> f(i) != f(j)
    ensures |Values(f, k)| == k
  {
    if k > 0 {
      ValueCount(f, k - 1);
      if f(k) in Values(f, k - 1) {
        var j := ValueAt(f, k - 1, f(k));
      }
    }
  }

  /** Capacity: as long as fewer addresses are in use than the network has candidates, one is free. */
  lemma RoomLeft(c: Cidr4, used: set<string>)
    requires ValidCidr(c) && |used| < CandidateCount(c)
    ensures !Exhausted(Some(c), used)
  {
    CandidatesExact(c, 1);
    var k: nat := CandidateCount(c);
    if AllUsed(c, used, k + 1) {
      FullMeansMany(c, used, k);
    }
  }

  lemma FullMeansMany(c: Cidr4, used: set<string>, k: nat)
    requires k < 65536 && AllUsed(c, used, k + 1)
    ensures k <= |used|
  {
    var f := (j: nat) => Render(c, j);
    forall i: nat, j: nat | 1 <= i < j <= k ensures f(i) != f(j) {
      if f(i) == f(j) {
        CandidatesDiffer(c, i, j);
      }
    }
    ValueCount(f, k);
    forall s | s in Values(f, k) ensures s in used {
      var j := ValueAt(f, k, s);
      assert Render(c, j) in used;
    }
    SubsetSize(Values(f, k), used);
  }

  /**
   The least unused candidate inside the network; fails exactly when there is none.
   */
  method AllocateOverlayIPv4(cidr: Option<Cidr4>, used: set<string>) returns (ip: string, ok: bool)
    requires cidr.Some? ==> ValidCidr(cidr.value)
    ensures ok <==> !Exhausted(cidr, used)
    ensures ok ==> cidr.Some? && LeastUnused(cidr.value, used, ip) && PlainAddress(ip)
  {
    if cidr.None? {
      return "", false;
    }
    var c := cidr.value;
    var i := 1;
    CandidatesExact(c, 1);
    while i < 65534
      invariant 1 <= i <= 65534
      invariant i - 1 <= CandidateCount(c)
      invariant AllUsed(c, used, i)
    {
      CandidatesExact(c, i);
      if !Contains(c, Candidate(c, i)) {
        break;
      }
      var s := Render(c, i);
      if s !in used {
        FoundLeast(c, used, i);
        return s, true;
      }
      OneMoreUsed(c, used, i);
      i := i + 1;
    }
    return "", false;
  }
}
