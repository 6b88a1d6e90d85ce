/** The random number generator: the cipher's table is always a permutation, and bounded numbers are unbiased. */
module Arc4 {
  import opened Bytes

  // ---------------------------------------------------------------- the cipher on values

  type Table = s: seq<byte> | |s| == 256 witness seq(256, _ => 0)

  datatype Cipher = Cipher(i: byte, j: byte, s: Table)

  /** All bytes, each once. */
  predicate Permutation(s: Table) {
    forall a, b :: 0 <= a < b < 256 ==> s[a] != s[b]
  }

  function Wrap(x: int): byte {
    x % 256
  }

  function Identity(): (r: Table)
    ensures forall k :: 0 <= k < 256 ==> r[k] == k
  {
    seq(256, k requires 0 <= k < 256 => k)
  }

  lemma IdentityIsOne()
    ensures Permutation(Identity())
  {
  }

  /** A table without repetitions holds every byte. */
  lemma EveryByteOccurs(s: Table, x: byte)
    requires Permutation(s)
    ensures x in s
  {
    if x !in s {
      var values, all := set k | 0 <= k < 256 :: s[k], set k | 0 <= k < 256 :: Identity()[k];
      CountDistinct(s, 256, values);
      CountDistinct(Identity(), 256, all);
      forall b | b in values
        ensures b in all - {x}
      {
        assert b == Identity()[b];
      }
      assert x == Identity()[x];
      SubsetSize(values, all - {x});
    }
  }

  lemma SubsetSize<T>(a: set<T>, b: set<T>)
    requires a <= b
    ensures |a| <= |b|
  {
    assert b == a + (b - a);
  }

  lemma {:induction false} CountDistinct(s: seq<byte>, n: nat, values: set<byte>)
    requires n <= |s| && forall a, b :: 0 <= a < b < n ==> s[a] != s[b]
    requires values == set k | 0 <= k < n :: s[k]
    ensures |values| == n
  {
    if n > 0 {
      var fewer := set k | 0 <= k < n - 1 :: s[k];
      CountDistinct(s, n - 1, fewer);
      assert values == fewer + {s[n - 1]};
    }
  }

  function Swap(s: Table, a: byte, b: byte): Table
  {
    s[a := s[b]][b := s[a]]
  }

  lemma SwapKeeps(s: Table, a: byte, b: byte)
    ensures Swap(Swap(s, a, b), a, b) == s
    ensures Permutation(s) ==> Permutation(Swap(s, a, b))
  {
  }

  /** The state after one byte was drawn. */
  function Next(c: Cipher): Cipher
  {
    var i := Wrap(c.i + 1);
    var j := Wrap(c.j + c.s[i]);
    Cipher(i, j, Swap(c.s, i, j))
  }

  /** The byte that was drawn to get here. */
  function Output(c: Cipher): byte
  {
    c.s[Wrap(c.s[c.i] as int + c.s[c.j])]
  }

  /** The state before the last byte was drawn. */
  function Previous(c: Cipher): Cipher
  {
    Cipher(Wrap(c.i - 1), Wrap(c.j - c.s[c.j]), Swap(c.s, c.i, c.j))
  }

  lemma WrapBack(x: byte, d: byte)
    ensures Wrap(Wrap(x + d) - d) == x && Wrap(Wrap(x - d) + d) == x && Wrap(x) == x
  {
  }

  lemma Undo(c: Cipher)
    ensures Previous(Next(c)) == c
  {
    var n := Next(c);
    assert n.s[n.j] == c.s[n.i];
    hide Wrap, Swap;
    WrapBack(c.i, 1);
    WrapBack(c.j, c.s[n.i]);
    SwapKeeps(c.s, n.i, n.j);
  }

  lemma Redo(c: Cipher)
    ensures Next(Previous(c)) == c
  {
    assert Previous(c).s[c.i] == c.s[c.j];
    hide Wrap, Swap;
    WrapBack(c.i, 1);
    WrapBack(c.j, c.s[c.j]);
    SwapKeeps(c.s, c.i, c.j);
  }

  /** Drawing a byte can be undone, so no two states run into one. */
  lemma Reversible(c: Cipher, d: Cipher)
    ensures Previous(Next(c)) == c && Next(Previous(c)) == c
    ensures Next(c) == Next(d) ==> c == d
  {
    hide Next, Previous;
    Undo(c);
    Undo(d);
    Redo(c);
  }

  /** The state after n bytes were drawn. */
  function After(c: Cipher, n: nat): Cipher
    decreases n
  {
    if n == 0 then c else Next(After(c, n - 1))
  }

  lemma {:induction false} AfterKeeps(c: Cipher, n: nat)
    requires Permutation(c.s)
    ensures Permutation(After(c, n).s)
    decreases n
  {
    hide Swap;
    if n > 0 {
      AfterKeeps(c, n - 1);
      var d := After(c, n - 1);
      SwapKeeps(d.s, Next(d).i, Next(d).j);
    }
  }

  /** n bytes of seed are mixed in. */
  function Mix(c: Cipher, dat: seq<byte>, n: nat): Cipher
    requires dat != []
    decreases n
  {
    if n == 0 then c
    else MixByte(Mix(c, dat, n - 1), SeedAt(dat, n - 1))
  }

  function SeedAt(dat: seq<byte>, n: nat): byte
    requires dat != []
  {
    dat[n % |dat|]
  }

  function MixByte(c: Cipher, x: byte): Cipher {
    var i := Wrap(c.i + 1);
    var j := Wrap(c.j + c.s[i] + x);
    Cipher(i, j, Swap(c.s, i, j))
  }

  /** The state before this byte was mixed in. */
  function Unmixed(c: Cipher, x: byte): Cipher {
    Cipher(Wrap(c.i - 1), Wrap(c.j - c.s[c.j] - x), Swap(c.s, c.i, c.j))
  }

  lemma UndoMix(c: Cipher, x: byte)
    ensures Unmixed(MixByte(c, x), x) == c
  {
    var n := MixByte(c, x);
    assert n.s[n.j] == c.s[n.i];
    WrapSum(c.j, c.s[n.i], x);
    hide Wrap, Swap;
    WrapBack(c.i, 1);
    SwapKeeps(c.s, n.i, n.j);
  }

  lemma RedoMix(c: Cipher, x: byte)
    ensures MixByte(Unmixed(c, x), x) == c
  {
    assert Unmixed(c, x).s[c.i] == c.s[c.j];
    WrapSum(c.j, c.s[c.j], x);
    hide Wrap, Swap;
    WrapBack(c.i, 1);
    SwapKeeps(c.s, c.i, c.j);
  }

  lemma WrapSum(j: byte, d: byte, x: byte)
    ensures Wrap(Wrap(j + d + x) - d - x) == j && Wrap(Wrap(j - d - x) + d + x) == j
  {
    var up, down := Wrap(j + d + x) - (j + d + x), Wrap(j - d - x) - (j - d - x);
    assert up in {0, -256, -512} && down in {0, 256, 512};
    assert Wrap(j + up) == j && Wrap(j + down) == j;
  }

  /** The byte decides where the mixing step leads: different bytes lead from one state to different states. */
  lemma ByteDecides(c: Cipher, x: byte, y: byte)
    ensures MixByte(c, x) == MixByte(c, y) ==> x == y
    ensures Permutation(c.s) && MixByte(c, x).s == MixByte(c, y).s ==> x == y
  {
    var i := Wrap(c.i + 1);
    var j, k := Wrap(c.j + c.s[i] + x), Wrap(c.j + c.s[i] + y);
    if x != y {
      WrapApart(c.j + c.s[i], x, y);
      if Permutation(c.s) {
        assert Swap(c.s, i, j)[i] == c.s[j] && Swap(c.s, i, k)[i] == c.s[k];
        assert c.s[j] != c.s[k];
      }
    }
  }

  lemma WrapApart(a: int, x: byte, y: byte)
    ensures Wrap(a + x) == Wrap(a + y) ==> x == y
  {
  }

  /** Mixing a byte in can be undone by whoever knows the byte, so no two states run into one. */
  lemma MixReversible(c: Cipher, d: Cipher, x: byte)
    ensures Unmixed(MixByte(c, x), x) == c && MixByte(Unmixed(c, x), x) == c
    ensures MixByte(c, x) == MixByte(d, x) ==> c == d
  {
    hide MixByte, Unmixed;
    UndoMix(c, x);
    UndoMix(d, x);
    RedoMix(c, x);
  }

  /** Seeds that agree on the bytes that are used lead to the same state. */
  lemma {:induction false} SameMix(c: Cipher, a: seq<byte>, b: seq<byte>, n: nat)
    requires a != [] && b != [] && forall k: nat :: k < n ==> SeedAt(a, k) == SeedAt(b, k)
    ensures Mix(c, a, n) == Mix(c, b, n)
    decreases n
  {
    hide MixByte, SeedAt;
    if n > 0 {
      SameMix(c, a, b, n - 1);
      assert SeedAt(a, n - 1) == SeedAt(b, n - 1);
    }
  }

  lemma MixMore(c: Cipher, dat: seq<byte>, n: nat)
    requires dat != []
    ensures Mix(c, dat, 0) == c && Mix(c, dat, n + 1) == MixByte(Mix(c, dat, n), SeedAt(dat, n))
  {
  }

  lemma {:induction false} MixKeeps(c: Cipher, dat: seq<byte>, n: nat)
    requires Permutation(c.s) && dat != []
    ensures Permutation(Mix(c, dat, n).s)
    decreases n
  {
    if n > 0 {
      MixKeeps(c, dat, n - 1);
      var d, x := Mix(c, dat, n - 1), SeedAt(dat, n - 1);
      assert MixByte(d, x).s == Swap(d.s, MixByte(d, x).i, MixByte(d, x).j);
      hide Swap, Permutation, SeedAt, MixByte;
      SwapKeeps(d.s, MixByte(d, x).i, MixByte(d, x).j);
    }
  }

  lemma {:induction false} MixMovesOn(c: Cipher, dat: seq<byte>, n: nat)
    requires dat != []
    ensures Mix(c, dat, n).i == Wrap(c.i + n)
    decreases n
  {
    hide Wrap, MixByte, SeedAt;
    if n == 0 {
      WrapBack(c.i, 0);
    } else {
      MixMovesOn(c, dat, n - 1);
      MixOne(Mix(c, dat, n - 1), SeedAt(dat, n - 1), c.i + n - 1);
    }
  }

  lemma MixOne(c: Cipher, x: byte, k: nat)
    requires c.i == Wrap(k)
    ensures MixByte(c, x).i == Wrap(k + 1)
  {
  }

  /** One round of seeding: as many bytes as the table has. */
  function Seeded(c: Cipher, dat: seq<byte>): Cipher
    requires dat != []
  {
    var d := Mix(c.(i := Wrap(c.i - 1)), dat, 256);
    d.(j := d.i)
  }

  /** The last byte of a seed counts: if two seeds of 256 bytes differ there only, the tables come out different. */
  lemma LastByteCounts(c: Cipher, a: seq<byte>, b: seq<byte>)
    requires Permutation(c.s) && |a| == |b| == 256 && a[..255] == b[..255] && a[255] != b[255]
    ensures Seeded(c, a).s != Seeded(c, b).s
  {
    hide Mix, MixByte, Wrap, Permutation;
    var d, n := c.(i := Wrap(c.i - 1)), 255;
    forall k: nat | k < n
      ensures SeedAt(a, k) == SeedAt(b, k)
    {
      assert a[k] == a[..255][k] && b[k] == b[..255][k];
    }
    SameMix(d, a, b, n);
    MixKeeps(d, a, n);
    MixMore(d, a, n);
    MixMore(d, b, n);
    ByteDecides(Mix(d, a, n), a[255], b[255]);
  }

  /** Every round of seeding with a known seed can be undone, up to j: different states of the table stay different. */
  lemma {:induction false} MixInjective(c: Cipher, d: Cipher, dat: seq<byte>, n: nat)
    requires dat != [] && Mix(c, dat, n) == Mix(d, dat, n)
    ensures c == d
    decreases n
  {
    hide MixByte, SeedAt;
    if n > 0 {
      MixReversible(Mix(c, dat, n - 1), Mix(d, dat, n - 1), SeedAt(dat, n - 1));
      MixInjective(c, d, dat, n - 1);
    }
  }

  /** Only the first 256 bytes of a seed count, and a shorter one counts as if it were repeated. */
  lemma SeedBytesUsed(c: Cipher, dat: seq<byte>)
    requires dat != []
    ensures |dat| >= 256 ==> Seeded(c, dat) == Seeded(c, dat[..256])
    ensures Seeded(c, dat + dat) == Seeded(c, dat)
  {
    var d := c.(i := Wrap(c.i - 1));
    hide Mix;
    if |dat| >= 256 {
      SameMix(d, dat, dat[..256], 256);
    }
    forall k: nat | k < 256
      ensures SeedAt(dat, k) == SeedAt(dat + dat, k)
    {
      Repeated(dat, k);
    }
    SameMix(d, dat, dat + dat, 256);
  }

  lemma Repeated(dat: seq<byte>, k: nat)
    requires dat != []
    ensures SeedAt(dat, k) == SeedAt(dat + dat, k)
  {
    var n := |dat|;
    var r := k % (2 * n);
    assert k == 2 * n * (k / (2 * n)) + r;
    assert k == n * (2 * (k / (2 * n))) + r;
    if r < n {
      RemainderIs(k, n, 2 * (k / (2 * n)), r);
    } else {
      assert k == n * (2 * (k / (2 * n)) + 1) + (r - n);
      RemainderIs(k, n, 2 * (k / (2 * n)) + 1, r - n);
    }
  }

  datatype Call = Init | Seed(dat: seq<byte>) | Draw(n: nat)

  function Apply(c: Cipher, call: Call): Cipher
  {
    match call
    case Init => Cipher(0, 0, Identity())
    case Seed(dat) => if dat == [] then c else Seeded(c, dat)
    case Draw(n) => After(c, n)
  }

  function Run(c: Cipher, calls: seq<Call>): Cipher
    decreases |calls|
  {
    if calls == [] then c else Run(Apply(c, calls[0]), calls[1..])
  }

  /** However the generator is seeded and used once it is set up, its table is a permutation. */
  lemma {:induction false} AlwaysPermutation(c: Cipher, calls: seq<Call>)
    requires Permutation(c.s)
    ensures Permutation(Run(c, calls).s)
    decreases |calls|
  {
    hide Permutation, Mix, After;
    if calls != [] {
      IdentityIsOne();
      match calls[0] {
        case Init =>
        case Seed(dat) =>
          if dat != [] {
            MixKeeps(c.(i := Wrap(c.i - 1)), dat, 256);
          }
        case Draw(n) => AfterKeeps(c, n);
      }
      AlwaysPermutation(Apply(c, calls[0]), calls[1..]);
    }
  }

  class Arc4Stream {
    var i: byte
    var j: byte
    const s: array<byte>

    ghost predicate Valid()
      reads this, s
    {
      s.Length == 256
    }

    ghost function State(): Cipher
      requires Valid()
      reads this, s
      {
      Cipher(i, j, s[..])
    }

    /** `rs` before it is set up. */
    constructor ()
      ensures Valid() && fresh(s)
    {
      i, j := 0, 0;
      s := new byte[256];
    }

    method Init()
      requires Valid()
      modifies this, s
      ensures Valid() && State() == Cipher(0, 0, Identity())
    {
      for n := 0 to 256
        modifies s
        invariant forall k :: 0 <= k < n ==> s[k] == k
      {
        s[n] := n;
      }
      i := 0;
      j := 0;
      assert s[..] == Identity();
    }

    method AddByte(x: byte)
      requires Valid()
      modifies this, s
      ensures Valid() && State() == MixByte(old(State()), x)
      ensures i == (old(i) + 1) % 256 && j == (old(j) + old(s[..])[i] + x) % 256
      ensures s[i] == old(s[..])[j] && s[j] == old(s[..])[i]
      ensures forall k :: 0 <= k < 256 && k != i && k != j ==> s[k] == old(s[k])
    {
      i := Wrap(i + 1);
      var si := s[i];
      j := Wrap(j + si + x);
      s[i] := s[j];
      s[j] := si;
    }

    method AddRandom(dat: seq<byte>)
      requires Valid() && dat != []
      modifies this, s
      ensures Valid() && State() == Seeded(old(State()), dat)
      ensures i == j == (old(i) + 255) % 256
    {
      hide Mix, Swap, Permutation;
      ghost var c, n := State().(i := Wrap(i - 1)), 256;
      MixMovesOn(c, dat, n);
      i := Wrap(i - 1);
      AddBytes(dat);
      j := i;
    }

    /** The loop of the seeding. */
    method AddBytes(dat: seq<byte>)
      requires Valid() && dat != []
      modifies this, s
      ensures Valid() && State() == Mix(old(State()), dat, 256)
    {
      hide Wrap, Swap, SeedAt, MixByte, Mix;
      ghost var c := State();
      MixMore(c, dat, 0);
      for n := 0 to 256
        modifies this, s
        invariant Valid() && State() == Mix(c, dat, n)
      {
        MixMore(c, dat, n);
        AddByte(SeedAt(dat, n));
      }
    }

    method GetByte() returns (r: byte)
      requires Valid()
      modifies this, s
      ensures Valid() && State() == Next(old(State())) && r == Output(State())
      ensures i == (old(i) + 1) % 256 && j == (old(j) + old(s[..])[i]) % 256
      ensures s[i] == old(s[..])[j] && s[j] == old(s[..])[i] && r == s[(s[i] as int + s[j]) % 256]
      ensures forall k :: 0 <= k < 256 && k != i && k != j ==> s[k] == old(s[k])
    {
      i := Wrap(i + 1);
      var si := s[i];
      j := Wrap(j + si);
      var sj := s[j];
      s[i] := sj;
      s[j] := si;
      r := s[Wrap(si as int + sj)];
    }

    /** Four bytes, the first one highest. */
    method GetWord() returns (r: uint32)
      requires Valid()
      modifies this, s
      ensures Valid() && State() == After(old(State()), 4) && r == WordAt(old(State()))
    {
      hide Next, Output;
      ghost var c := State();
      var b1 := GetByte();
      assert State() == After(c, 1);
      var b2 := GetByte();
      assert State() == After(c, 2);
      var b3 := GetByte();
      assert State() == After(c, 3);
      var b4 := GetByte();
      r := b1 as int * 0x100_0000 + b2 as int * 0x1_0000 + b3 as int * 0x100 + b4;
    }
  }

  /** The word that is drawn next. */
  function WordAt(c: Cipher): uint32
  {
    Output(After(c, 1)) * 0x100_0000 + Output(After(c, 2)) * 0x1_0000
    + Output(After(c, 3)) * 0x100 + Output(After(c, 4))
  }

  /** The four bytes that are drawn next, the first one highest. */
  lemma WordBytes(c: Cipher)
    ensures var w := WordAt(c);
            && w / 0x100_0000 == Output(After(c, 1)) && w / 0x1_0000 % 0x100 == Output(After(c, 2))
            && w / 0x100 % 0x100 == Output(After(c, 3)) && w % 0x100 == Output(After(c, 4))
  {
    hide After, Output;
    FourBytes(Output(After(c, 1)), Output(After(c, 2)), Output(After(c, 3)), Output(After(c, 4)));
  }

  lemma FourBytes(a: byte, b: byte, c: byte, d: byte)
    ensures var w := a as int * 0x100_0000 + b as int * 0x1_0000 + c as int * 0x100 + d;
            && w / 0x100_0000 == a && w / 0x1_0000 % 0x100 == b && w / 0x100 % 0x100 == c && w % 0x100 == d
  {
    var ab := a as int * 0x100 + b;
    var abc := ab * 0x100 + c;
    LastByte(a, b);
    LastByte(ab, c);
    LastByte(abc, d);
    var w := abc * 0x100 + d;
    assert w / 0x1_0000 == ab && w / 0x100_0000 == a;
  }

  lemma LastByte(front: nat, last: byte)
    ensures (front * 0x100 + last) / 0x100 == front && (front * 0x100 + last) % 0x100 == last
  {
  }
}
