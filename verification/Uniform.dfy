/** Bounded random numbers without bias. */
module Uniform {
  import opened Bytes
  import opened Arc4

  const TWO32 := 0x1_0000_0000

  /** The words below this are rejected. */
  function Threshold(bound: uint32): uint32
    requires bound >= 2
  {
    TWO32 % bound
  }

  /** Complement and wrap-around of 32-bit words. */
  function Complement(x: uint32): uint32 {
    0xFFFF_FFFF - x
  }

  function Wrap32(x: int): uint32 {
    x % TWO32
  }

  // ---------------------------------------------------------------- arithmetic

  lemma RemainderOfShift(a: int, b: nat, k: int)
    requires b > 0
    ensures (a + k * b) % b == a % b
  {
    assert a == (a / b) * b + a % b;
    assert a + k * b == (a / b + k) * b + a % b;
    RemainderIs(a + k * b, b, a / b + k, a % b);
  }

  /** Both ways to compute the threshold with 32 bits only are right. */
  lemma ThresholdIn32Bits(bound: uint32)
    requires bound >= 2
    ensures bound > 0x8000_0000 ==> Wrap32(1 + Complement(bound)) == Threshold(bound)
    ensures bound <= 0x8000_0000 ==> Wrap32(Wrap32(0xFFFF_FFFF - Wrap32(bound * 2)) + 1) % bound == Threshold(bound)
  {
    if bound > 0x8000_0000 {
      RemainderIs(TWO32, bound, 1, TWO32 - bound);
    } else if bound == 0x8000_0000 {
    } else {
      assert Wrap32(bound * 2) == bound * 2;
      assert Wrap32(Wrap32(0xFFFF_FFFF - bound * 2) + 1) == TWO32 - bound * 2;
      hide Wrap32;
      assert TWO32 - bound * 2 == TWO32 + (-2) * bound;
      RemainderOfShift(TWO32, bound, -2);
    }
  }

  // ---------------------------------------------------------------- counting

  /** The accepted words below a limit that lead to one result. */
  ghost function Accepted(from: nat, to: nat, bound: nat, result: nat): set<int>
    requires bound > 0
  {
    set r: int | from <= r < to && r % bound == result
  }

  /** Among any as many consecutive numbers as the bound, exactly one leads to the result. */
  lemma ExactlyOne(from: nat, bound: nat, result: nat)
    requires result < bound
    ensures exists x :: Accepted(from, from + bound, bound, result) == {x}
  {
    var d := (result - from) % bound;
    var q := (result - from) / bound;
    var x := from + d;
    assert result - from == q * bound + d;
    assert x == (-q) * bound + result;
    RemainderIs(x, bound, -q, result);
    forall r | from <= r < from + bound && r % bound == result
      ensures r == x
    {
      var k := r / bound - x / bound;
      assert r == (r / bound) * bound + result && x == (x / bound) * bound + result;
      assert k * bound == r - x;
      Multiple(k, bound);
    }
    assert Accepted(from, from + bound, bound, result) == {x};
  }

  lemma {:induction false} CountIn(from: nat, n: nat, bound: nat, result: nat)
    requires result < bound
    ensures |Accepted(from, from + n * bound, bound, result)| == n
    decreases n
  {
    if n == 0 {
      assert Accepted(from, from, bound, result) == {};
    } else {
      var mid := from + (n - 1) * bound;
      CountIn(from, n - 1, bound, result);
      ExactlyOne(mid, bound, result);
      assert n * bound == (n - 1) * bound + bound;
      Multiple(n, bound);
      assert (n - 1) * bound >= 0;
      var a, b := Accepted(from, mid, bound, result), Accepted(mid, mid + bound, bound, result);
      assert Accepted(from, from + n * bound, bound, result) == a + b;
      assert a * b == {};
      var x :| b == {x};
      assert |b| == 1;
    }
  }

  /** Every result comes from the same number of accepted words. */
  lemma Unbiased(bound: uint32, result: nat)
    requires bound >= 2 && result < bound
    ensures |Accepted(Threshold(bound), TWO32, bound, result)| == (TWO32 - Threshold(bound)) / bound
    ensures (TWO32 - Threshold(bound)) / bound >= 1
  {
    var n := TWO32 / bound;
    assert TWO32 == n * bound + Threshold(bound);
    CountIn(Threshold(bound), n, bound, result);
    assert (TWO32 - Threshold(bound)) / bound == n by {
      var a := TWO32 - Threshold(bound);
      assert a == n * bound;
      RemainderIs(a, bound, n, 0);
      assert a == (a / bound) * bound + a % bound;
      assert (n - a / bound) * bound == 0;
      Multiple(n - a / bound, bound);
    }
    Multiple(1 - n, bound);
  }

  /** More than half of all words are accepted. */
  lemma MostAreAccepted(bound: uint32)
    requires bound >= 2
    ensures 2 * Threshold(bound) < TWO32
  {
    var n := TWO32 / bound;
    assert TWO32 == n * bound + Threshold(bound);
    Multiple(n, bound);
  }

  // ---------------------------------------------------------------- the method

  lemma {:induction false} AfterMore(c: Cipher, m: nat, n: nat)
    ensures After(After(c, m), n) == After(c, m + n)
    decreases n
  {
    AfterStep(c, m + n - 1);
    AfterStep(After(c, m), n - 1);
    hide After, Next;
    if n > 0 {
      AfterMore(c, m, n - 1);
    }
  }

  lemma AfterStep(c: Cipher, n: int)
    ensures After(c, 0) == c
    ensures n >= 0 ==> After(c, n + 1) == Next(After(c, n))
  {
  }

  /** The k-th word that the generator draws from here on. */
  function Word(c: Cipher, k: nat): uint32 {
    WordAt(After(c, 4 * k))
  }

  /**
   * The first word that is not rejected decides, and exactly the words up to it are drawn. After so many rejected words
   * there is no result yet.
   */
  method Arc4RandomUniform(rs: Arc4Stream, bound: uint32, patience: nat) returns (r: Option<uint32>)
    requires rs.Valid()
    modifies rs, rs.s
    ensures rs.Valid()
    ensures bound < 2 ==> r == Some(0) && rs.State() == old(rs.State())
    ensures bound >= 2 && r == None ==> forall j: nat :: j < patience ==> Word(old(rs.State()), j) < TWO32 % bound
    ensures bound >= 2 && r.Some? ==> r.value < bound
    ensures bound >= 2 && r.Some? ==>
              exists k: nat ::
                && k < patience && Word(old(rs.State()), k) >= TWO32 % bound
                && (forall j: nat :: j < k ==> Word(old(rs.State()), j) < TWO32 % bound)
                && r.value == Word(old(rs.State()), k) % bound
                && rs.State() == After(old(rs.State()), 4 * k + 4)
  {
    hide After, WordAt, Word;
    if bound < 2 {
      return Some(0);
    }
    ghost var c := rs.State();
    ThresholdIn32Bits(bound);
    var min := if bound > 0x8000_0000 then Wrap32(1 + Complement(bound))
               else Wrap32(Wrap32(0xFFFF_FFFF - Wrap32(bound * 2)) + 1) % bound;
    hide Wrap32, Complement;
    AfterStep(c, 0);
    for k := 0 to patience
      invariant rs.Valid() && rs.State() == After(c, 4 * k)
      invariant forall j: nat :: j < k ==> Word(c, j) < min
    {
      WordIs(c, k);
      AfterMore(c, 4 * k, 4);
      var word := rs.GetWord();
      if word >= min {
        assert Word(c, k) >= min && word % bound == Word(c, k) % bound;
        return Some(word % bound);
      }
    }
    return None;
  }

  lemma WordIs(c: Cipher, k: nat)
    ensures Word(c, k) == WordAt(After(c, 4 * k))
  {
  }
}
