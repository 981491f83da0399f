/**
 Batches with indices past the tree. The verifier never compares an index with the number of leaves: a batch is accepted
 exactly if all its indices lie in one copy of the tree and the batch of their positions in it is accepted.
 */
module BatchRange {
  import opened Bits
  import opened Hashing
  import opened MerkleTree
  import opened OrderedMap
  import opened BatchProof

  /** The batch with every index raised. */
  function Raise(elems: seq<Elem>, shift: nat): (r: seq<Elem>)
    ensures |r| == |elems|
    ensures forall i :: 0 <= i < |r| ==> r[i] == Entry(elems[i].key + shift, elems[i].value)
  {
    seq(|elems|, i requires 0 <= i < |elems| => Entry(elems[i].key + shift, elems[i].value))
  }

  lemma EvenRaise(k: nat, shift: nat)
    ensures (k + 2 * shift) % 2 == k % 2 && (k + 2 * shift) / 2 == k / 2 + shift
  {
  }

  /** One step on a raised level is the raised step. */
  lemma StepRaised(h: HashFn, level: seq<Elem>, shift: nat, path: seq<Digest>)
    requires level != []
    ensures var raised := Raise(level, 2 * shift);
            && Paired(raised) == Paired(level) && LevelAfter(raised) == Raise(LevelAfter(level), 2 * shift)
            && CanStep(raised, path) == CanStep(level, path) && |LevelAfter(level)| < |level|
    ensures CanStep(level, path) ==>
              && Combined(h, Raise(level, 2 * shift), path)
              == Entry(Combined(h, level, path).key + shift, Combined(h, level, path).value)
              && PathAfter(Raise(level, 2 * shift), path) == PathAfter(level, path)
  {
    EvenRaise(level[0].key, shift);
  }

  lemma RaiseCons(first: Elem, more: seq<Elem>, shift: nat)
    ensures [Entry(first.key + shift, first.value)] + Raise(more, shift) == Raise([first] + more, shift)
    ensures Raise([], shift) == []
  {
  }

  /** A round on a raised level is the raised round. */
  lemma {:induction false} RoundRaised(h: HashFn, level: seq<Elem>, shift: nat, path: seq<Digest>)
    ensures Round(h, Raise(level, 2 * shift), path)
         == match Round(h, level, path) case Stuck => Stuck case Done(up, rest) => Done(Raise(up, shift), rest)
    decreases |level|
  {
    hide Raise, Combined, LevelAfter, PathAfter, Paired, CanStep;
    if level == [] {
      RaiseCons(Entry(0, []), [], shift);
      RaiseCons(Entry(0, []), [], 2 * shift);
    } else {
      StepRaised(h, level, shift, path);
      if CanStep(level, path) {
        RoundRaised(h, LevelAfter(level), shift, PathAfter(level, path));
        var o := Round(h, LevelAfter(level), PathAfter(level, path));
        if o.Done? { RaiseCons(Combined(h, level, path), o.level, shift); }
      }
    }
  }

  lemma {:induction false} RoundsRaised(h: HashFn, level: seq<Elem>, depth: nat, shift: nat, path: seq<Digest>)
    ensures Rounds(h, Raise(level, shift * Pow2(depth)), depth, path)
         == match Rounds(h, level, depth, path)
            case Stuck => Stuck
            case Done(top, rest) => Done(Raise(top, shift), rest)
    decreases depth
  {
    hide Round;
    if depth > 0 {
      var half := shift * Pow2(depth - 1);
      assert shift * Pow2(depth) == 2 * half;
      RoundRaised(h, level, half, path);
      var o := Round(h, level, path);
      if o.Done? { RoundsRaised(h, o.level, depth - 1, shift, o.path); }
    }
  }

  lemma {:induction false} InsertRaised(m: seq<Elem>, key: nat, value: Digest, shift: nat)
    ensures Insert(Raise(m, shift), key + shift, value) == Raise(Insert(m, key, value), shift)
  {
    hide Raise;
    if m == [] {
      RaiseCons(Entry(key, value), [], shift);
    } else {
      assert m == [m[0]] + m[1..];
      RaiseCons(m[0], m[1..], shift);
      RaiseCons(Entry(key, value), m, shift);
      RaiseCons(Entry(key, value), m[1..], shift);
      if key > m[0].key {
        InsertRaised(m[1..], key, value, shift);
        RaiseCons(m[0], Insert(m[1..], key, value), shift);
      }
    }
  }

  lemma {:induction false} CollectRaised(elems: seq<Elem>, shift: nat)
    ensures Collect(Raise(elems, shift)) == Raise(Collect(elems), shift)
  {
    hide Insert;
    if elems != [] {
      var init, last := elems[..|elems| - 1], elems[|elems| - 1];
      assert Raise(elems, shift)[..|elems| - 1] == Raise(init, shift);
      CollectRaised(init, shift);
      InsertRaised(Collect(init), last.key, last.value, shift);
    }
  }

  /** Raising all indices shift a multiple of the tree's width changes nothing. */
  lemma BatchRaised(h: HashFn, elems: seq<Elem>, depth: nat, path: seq<Digest>, root: Digest, shift: nat)
    ensures BatchAccepts(h, Raise(elems, shift * Pow2(depth)), depth, path, root)
       <==> BatchAccepts(h, elems, depth, path, root)
  {
    hide Rounds, Collect, Pow2;
    CollectRaised(elems, shift * Pow2(depth));
    RoundsRaised(h, Collect(elems), depth, shift, path);
  }

  // ---------------------------------------------------------------- an accepted batch lies in one copy

  /** After the rounds, every index has become its ancestor. */
  lemma {:induction false} RoundsKeys(h: HashFn, level: seq<Elem>, depth: nat, path: seq<Digest>, k: nat)
    requires Sorted(level) && k in Keys(level) && Rounds(h, level, depth, path).Done?
    ensures ShiftRight(k, depth) in Keys(Rounds(h, level, depth, path).level)
    decreases depth
  {
    hide Round, Keys;
    if depth > 0 {
      RoundKeys(h, level, path);
      var o := Round(h, level, path);
      RoundsKeys(h, o.level, depth - 1, o.path, k / 2);
    }
  }

  /** Which repetition of the tree an index lies in, and where in it. */
  function CopyOf(k: nat, depth: nat): nat { ShiftRight(k, depth) }

  function Position(k: nat, depth: nat): (p: nat)
    ensures p < Pow2(depth)
  {
    k % Pow2(depth)
  }

  /** All indices lie in one repetition. */
  ghost predicate InOneCopy(elems: seq<Elem>, depth: nat) {
    forall i, j :: 0 <= i < j < |elems| ==> CopyOf(elems[i].key, depth) == CopyOf(elems[j].key, depth)
  }

  lemma AcceptedInCopy(h: HashFn, elems: seq<Elem>, depth: nat, path: seq<Digest>, root: Digest)
    requires elems != [] && BatchAccepts(h, elems, depth, path, root)
    ensures InOneCopy(elems, depth)
  {
    hide Rounds, Collect, Pow2, ShiftRight;
    CollectElems(elems);
    var top := Rounds(h, Collect(elems), depth, path).level;
    forall i | 0 <= i < |elems|
      ensures CopyOf(elems[i].key, depth) == top[0].key
    {
      assert elems[i].key in Keys(elems);
      RoundsKeys(h, Collect(elems), depth, path, elems[i].key);
    }
  }

  /** The positions of the indices in their repetitions. */
  function Lower(elems: seq<Elem>, depth: nat): (r: seq<Elem>)
    ensures |r| == |elems|
    ensures forall i :: 0 <= i < |r| ==> r[i] == Entry(Position(elems[i].key, depth), elems[i].value)
  {
    seq(|elems|, i requires 0 <= i < |elems| => Entry(Position(elems[i].key, depth), elems[i].value))
  }

  lemma LowerIsBelow(elems: seq<Elem>, depth: nat)
    ensures Below(Lower(elems, depth), Pow2(depth))
  {
    hide Pow2;
  }

  lemma PositionInCopy(k: nat, depth: nat)
    ensures k == Position(k, depth) + CopyOf(k, depth) * Pow2(depth)
  {
    hide Pow2, ShiftRight;
    ShiftDivides(k, depth);
  }

  /** A batch is accepted exactly if its indices lie in one repetition of the tree and their positions are accepted. */
  lemma AnyIndicesIff(h: HashFn, elems: seq<Elem>, depth: nat, path: seq<Digest>, root: Digest)
    requires elems != []
    ensures BatchAccepts(h, elems, depth, path, root)
       <==> InOneCopy(elems, depth) && BatchAccepts(h, Lower(elems, depth), depth, path, root)
    ensures Below(Lower(elems, depth), Pow2(depth))
  {
    hide BatchAccepts, Pow2, CopyOf, Position, InOneCopy;
    LowerIsBelow(elems, depth);
    if BatchAccepts(h, elems, depth, path, root) { AcceptedInCopy(h, elems, depth, path, root); }
    if InOneCopy(elems, depth) {
      LowerRaised(elems, depth);
      BatchRaised(h, Lower(elems, depth), depth, path, root, CopyOf(elems[0].key, depth));
    }
  }

  lemma LowerRaised(elems: seq<Elem>, depth: nat)
    requires elems != [] && InOneCopy(elems, depth)
    ensures elems == Raise(Lower(elems, depth), CopyOf(elems[0].key, depth) * Pow2(depth))
  {
    hide CopyOf, Position, Pow2;
    forall i | 0 <= i < |elems|
      ensures elems[i].key == Position(elems[i].key, depth) + CopyOf(elems[0].key, depth) * Pow2(depth)
    {
      PositionInCopy(elems[i].key, depth);
      assert i > 0 ==> CopyOf(elems[0].key, depth) == CopyOf(elems[i].key, depth);
    }
  }

  /** A batch of indices in different repetitions is refused, whatever the root and the path. */
  lemma ScatteredRefused(h: HashFn, elems: seq<Elem>, depth: nat, path: seq<Digest>, root: Digest, i: nat, j: nat)
    requires i < j < |elems| && CopyOf(elems[i].key, depth) != CopyOf(elems[j].key, depth)
    ensures !BatchAccepts(h, elems, depth, path, root)
  {
    hide BatchAccepts, CopyOf;
    if BatchAccepts(h, elems, depth, path, root) { AcceptedInCopy(h, elems, depth, path, root); }
  }
}
