/** BlockAlloc's search for a free block near a function (tmemutil-3rd/src/mhook-lib/mhook.c). */
module BlockSearch {
  import opened Pointers
  import Words

  /** What Windows says about the block at an address: the query fails, the block is in use or too
      small or its allocation is refused, or it is handed out. */
  datatype Answer = QueryFails | Rejected | Granted

  function RoundDown(addr: nat, rndDown: nat): (r: nat)
    requires rndDown > 0
    ensures r <= addr < r + rndDown
  {
    Words.DivBounds(addr, rndDown);
    addr / rndDown * rndDown
  }

  /** The k-th place in the order guess, -1, +1, -2, +2, ... */
  function Turn(k: nat): int { if k % 2 == 1 then 0 - (k + 1) / 2 else k / 2 }

  function Candidate(guess: int, g: nat, k: nat): int { guess + Turn(k) * g }

  function Far(guess: int, a: int): nat { if a < guess then guess - a else a - guess }

  /** No place comes twice, and none comes before a nearer one. */
  lemma SpiralOrder(guess: int, g: nat, i: nat, j: nat)
    requires g > 0 && i < j
    ensures Candidate(guess, g, i) != Candidate(guess, g, j)
    ensures Far(guess, Candidate(guess, g, i)) <= Far(guess, Candidate(guess, g, j))
  {
    var a, b := Turn(i), Turn(j);
    FarIs(guess, g, i);
    FarIs(guess, g, j);
    Words.MulMonotone((i + 1) / 2, (j + 1) / 2, g);
    if a < b { Words.MulMonotone(1, b - a, g); } else { Words.MulMonotone(1, a - b, g); }
    Words.Distribute(a, b - a, g);
    Words.Distribute(b, a - b, g);
  }

  lemma FarIs(guess: int, g: nat, k: nat)
    requires g > 0
    ensures Far(guess, Candidate(guess, g, k)) == (k + 1) / 2 * g
  {
    Words.MulMonotone(0, (k + 1) / 2, g);
    Words.Distribute((k + 1) / 2, 0 - (k + 1) / 2, g);
  }

  /** Every place has its turn: granule z from the guess comes as number PlaceOf(z). */
  function PlaceOf(z: int): nat { if z < 0 then -2 * z - 1 else 2 * z }

  lemma EveryPlaceComes(guess: int, g: nat, z: int)
    ensures Candidate(guess, g, PlaceOf(z)) == guess + z * g
    ensures Candidate(guess, g, 0) == guess
    ensures z > 0 ==> Candidate(guess, g, 2 * z - 1) == guess - z * g && Candidate(guess, g, 2 * z) == guess + z * g
  {
  }

  /** The turns up to a nearer place are over by the time a farther one is tried. */
  lemma NearerComesFirst(guess: int, g: nat, z: int, k: nat)
    requires g > 0 && Far(guess, guess + z * g) < Far(guess, Candidate(guess, g, k))
    ensures PlaceOf(z) < k
  {
    EveryPlaceComes(guess, g, z);
    if PlaceOf(z) == k { assert false; }
    if PlaceOf(z) > k { SpiralOrder(guess, g, k, PlaceOf(z)); }
  }

  /** The search tried the places before `tried`, all inside the bounds, and got none of them. */
  ghost predicate Tried(guess: int, g: nat, lower: int, upper: int, os: int -> Answer, tried: nat) {
    forall k: nat | k < tried :: lower < Candidate(guess, g, k) < upper && os(Candidate(guess, g, k)) == Rejected
  }

  /** How the search ended at the next place: with a block strictly inside the bounds, or empty-handed
      because that place is outside them or could not be queried. */
  ghost predicate Ended(guess: int, g: nat, lower: int, upper: int, os: int -> Answer, tried: nat, block: int) {
    var a := Candidate(guess, g, tried);
    if block != 0 then block == a && lower < a < upper && os(a) == Granted
    else !(lower < a < upper) || os(a) == QueryFails
  }

  /** The loop of BlockAlloc, with pointers that wrap at 2^64; 0 stands for NULL. It never wraps:
      going down it meets 0, which no bound admits, before it would. */
  method SearchBlock(pSystemFunction: nat, pbLower: nat, pbUpper: nat, cAllocSize: nat, os: int -> Answer)
    returns (block: nat, loopCount: nat)
    requires pSystemFunction < ADDRESSES && pbUpper <= ADDRESSES && cAllocSize > 0 && ADDRESSES % cAllocSize == 0
    ensures var guess := RoundDown(pSystemFunction, cAllocSize);
      && Tried(guess, cAllocSize, pbLower, pbUpper, os, loopCount)
      && Ended(guess, cAllocSize, pbLower, pbUpper, os, loopCount, block)
    ensures loopCount > 0 ==> (loopCount - 1) * cAllocSize < pbUpper - pbLower
  {
    hide Candidate, RoundDown, Rounded;
    var pModuleGuess := RoundDown(pSystemFunction, cAllocSize);
    var pbAlloc := pModuleGuess;
    loopCount := 0;
    GuessIsRounded(pSystemFunction, cAllocSize);
    while pbLower < pbAlloc < pbUpper
      invariant InStep(pbAlloc, Candidate(pModuleGuess, cAllocSize, loopCount), pbLower, pbUpper)
      invariant Tried(pModuleGuess, cAllocSize, pbLower, pbUpper, os, loopCount)
      invariant loopCount > 0 ==> (loopCount - 1) * cAllocSize < pbUpper - pbLower
      invariant loopCount > 0 ==> loopCount - 1 < pbUpper - pbLower
      decreases pbUpper - pbLower - loopCount
    {
      if os(pbAlloc) == QueryFails {
        return 0, loopCount;
      }
      if os(pbAlloc) == Granted {
        return pbAlloc, loopCount;
      }
      var bytesToOffset := Offset(cAllocSize, loopCount);
      assert Tried(pModuleGuess, cAllocSize, pbLower, pbUpper, os, loopCount + 1);
      NextPlace(pModuleGuess, cAllocSize, pbLower, pbUpper, os, loopCount);
      pbAlloc := (pbAlloc + bytesToOffset) % ADDRESSES;
      loopCount := loopCount + 1;
    }
    block := 0;
  }

  function Offset(cAllocSize: nat, loopCount: nat): int {
    cAllocSize * (loopCount + 1) * (if loopCount % 2 == 0 then -1 else 1)
  }

  /** The pointer is the place due, or both are outside the bounds. */
  predicate InStep(pbAlloc: int, place: int, lower: int, upper: int) {
    0 <= pbAlloc < ADDRESSES && (pbAlloc == place || (!(lower < pbAlloc < upper) && !(lower < place < upper)))
  }

  ghost predicate Rounded(a: int, g: nat) { g > 0 && exists k: int :: a == k * g }

  lemma GuessIsRounded(p: nat, g: nat)
    requires g > 0
    ensures Rounded(RoundDown(p, g), g) && Candidate(RoundDown(p, g), g, 0) == RoundDown(p, g)
  {
    assert RoundDown(p, g) == p / g * g;
  }

  /** Multiples of g on different sides of another are at least g apart. */
  lemma Gap(a: int, b: int, g: nat)
    requires g > 0 && a < b && Rounded(a, g) && Rounded(b, g)
    ensures a + g <= b
  {
    var i: int :| a == i * g;
    var j: int :| b == j * g;
    if j <= i { Words.MulMonotone(j, i, g); } else { Words.MulMonotone(i + 1, j, g); }
  }

  lemma CandidateIsRounded(guess: int, g: nat, k: nat)
    requires Rounded(guess, g)
    ensures Rounded(Candidate(guess, g, k), g)
  {
    var z: int :| guess == z * g;
    Words.Distribute(z, Turn(k), g);
    assert Candidate(guess, g, k) == (z + Turn(k)) * g;
  }

  /** Successive places are k + 1 granules apart, alternately down and up; every second one is the
      granule next to the last on its side. */
  lemma Strides(guess: int, g: nat, k: nat)
    ensures Candidate(guess, g, k + 1) == Candidate(guess, g, k) + Offset(g, k)
    ensures Offset(g, k) == if k % 2 == 0 then 0 - (k + 1) * g else (k + 1) * g
    ensures k > 0 ==> Candidate(guess, g, k + 1) == Candidate(guess, g, k - 1) + (if k % 2 == 0 then 0 - g else g)
    ensures Candidate(guess, g, 0) == guess && Candidate(guess, g, 1) == guess - g
  {
    var s := if k % 2 == 0 then -1 else 1;
    assert Turn(k + 1) == Turn(k) + (k + 1) * s;
    Words.Distribute(Turn(k), (k + 1) * s, g);
    Words.Associate(k + 1, s, g);
    if k > 0 {
      assert Turn(k + 1) == Turn(k - 1) + s;
      Words.Distribute(Turn(k - 1), s, g);
    }
  }

  lemma NextPlace(guess: int, g: nat, lower: nat, upper: nat, os: int -> Answer, k: nat)
    requires g > 0 && Rounded(guess, g) && ADDRESSES % g == 0 && upper <= ADDRESSES
    requires Tried(guess, g, lower, upper, os, k + 1)
    ensures InStep((Candidate(guess, g, k) + Offset(g, k)) % ADDRESSES, Candidate(guess, g, k + 1), lower, upper)
    ensures k * g < upper - lower && k < upper - lower
  {
    hide Candidate, Offset, Rounded;
    Strides(guess, g, k);
    var here, next := Candidate(guess, g, k), Candidate(guess, g, k + 1);
    assert lower < here < upper && lower < guess < upper;
    if k > 0 {
      assert lower < Candidate(guess, g, k - 1) < upper;
      Strides(guess, g, k - 1);
      Words.MulMonotone(1, g, k);
    }
    CandidateIsRounded(guess, g, k + 1);
    EndsRounded(g);
    if next < 0 { Gap(next, 0, g); }
    if next > ADDRESSES { Gap(ADDRESSES, next, g); }
    Wrapped(next);
  }

  lemma EndsRounded(g: nat)
    requires g > 0 && ADDRESSES % g == 0
    ensures Rounded(0, g) && Rounded(ADDRESSES, g)
  {
    assert 0 == 0 * g;
    Words.DivBounds(ADDRESSES, g);
    assert ADDRESSES == ADDRESSES / g * g;
  }

  lemma Wrapped(a: int)
    ensures 0 <= a < ADDRESSES ==> a % ADDRESSES == a
    ensures ADDRESSES % ADDRESSES == 0
  {
  }

  /** What the search found is a nearest block to be had: every granule strictly nearer was inside the
      bounds and rejected. An empty-handed search too had tried every granule nearer than the place
      it stopped at. */
  lemma NothingNearer(guess: int, g: nat, lower: int, upper: int, os: int -> Answer, tried: nat, z: int)
    requires g > 0 && Tried(guess, g, lower, upper, os, tried)
    requires Far(guess, guess + z * g) < Far(guess, Candidate(guess, g, tried))
    ensures lower < guess + z * g < upper && os(guess + z * g) == Rejected
  {
    NearerComesFirst(guess, g, z, tried);
    EveryPlaceComes(guess, g, z);
    assert lower < Candidate(guess, g, PlaceOf(z)) < upper;
  }
}
