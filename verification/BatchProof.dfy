/** Batch verification: many leaves against one shared path that is consumed greedily. */
module BatchProof {
  import opened Bytes
  import opened Bits
  import opened Hashing
  import opened MerkleTree
  import opened OrderedMap

  type Elem = Entry<Digest>

  // ---------------------------------------------------------------- one round on a sorted level

  /** The first node of the level is followed by its own sibling. */
  predicate Paired(level: seq<Elem>) {
    |level| >= 2 && level[0].key % 2 == 0 && level[1].key == level[0].key + 1
  }

  predicate CanStep(level: seq<Elem>, path: seq<Digest>) {
    level != [] && (Paired(level) || path != [])
  }

  /** The bytes hashed to combine the first node with its sibling, from the level or from the path. */
  function FirstPreimage(level: seq<Elem>, path: seq<Digest>): seq<Byte>
    requires CanStep(level, path)
  {
    StepPreimage(level[0].value, level[0].key, if Paired(level) then level[1].value else path[0])
  }

  function Combined(h: HashFn, level: seq<Elem>, path: seq<Digest>): Elem
    requires CanStep(level, path)
  {
    Entry(level[0].key / 2, h.digest(FirstPreimage(level, path)))
  }

  function LevelAfter(level: seq<Elem>): seq<Elem>
    requires level != []
  {
    if Paired(level) then level[2..] else level[1..]
  }

  function PathAfter(level: seq<Elem>, path: seq<Digest>): seq<Digest>
    requires CanStep(level, path)
  {
    if Paired(level) then path else path[1..]
  }

  datatype Outcome = Stuck | Done(level: seq<Elem>, path: seq<Digest>) {
    function After(up: seq<Elem>): Outcome {
      match this
      case Stuck => Stuck
      case Done(level, path) => Done(up + level, path)
    }
  }

  /** Combines every node of a level; stuck when the path runs out. */
  function Round(h: HashFn, level: seq<Elem>, path: seq<Digest>): Outcome
    decreases |level|
  {
    if level == [] then Done([], path)
    else if !CanStep(level, path) then Stuck
    else Round(h, LevelAfter(level), PathAfter(level, path)).After([Combined(h, level, path)])
  }

  function Rounds(h: HashFn, level: seq<Elem>, depth: nat, path: seq<Digest>): Outcome
    decreases depth
  {
    if depth == 0 then Done(level, path)
    else
      match Round(h, level, path)
      case Stuck => Stuck
      case Done(up, rest) => Rounds(h, up, depth - 1, rest)
  }

  /** The rounds end in one node, the root, with the whole path consumed. */
  predicate ReachesRoot(h: HashFn, level: seq<Elem>, depth: nat, path: seq<Digest>, root: Digest) {
    match Rounds(h, level, depth, path)
    case Stuck => false
    case Done(top, rest) => |top| == 1 && top[0].value == root && rest == []
  }

  predicate BatchAccepts(h: HashFn, elems: seq<Elem>, depth: nat, path: seq<Digest>, root: Digest) {
    if elems == [] then path == [] else ReachesRoot(h, Collect(elems), depth, path, root)
  }

  // ---------------------------------------------------------------- the verifier's loops

  /** Among the nodes above the smallest key, its sibling can only be the very next one. */
  lemma PopSibling(level: seq<Elem>)
    requires Sorted(level) && level != []
    ensures Get(level[1..], Sibling(level[0].key)) == if Paired(level) then Found(level[1].value) else Missing
    ensures Paired(level) ==> Remove(level[1..], Sibling(level[0].key)) == level[2..]
  {
    var rest := level[1..];
    if Paired(level) {
      assert rest[0] == level[1] && rest[1..] == level[2..];
    } else {
      GetContents(rest, Sibling(level[0].key));
      ContentsKeys(rest);
      assert Sibling(level[0].key) !in Keys(rest);
    }
  }

  lemma {:induction false} InsertAtEnd(m: seq<Elem>, key: nat, value: Digest)
    requires forall i :: 0 <= i < |m| ==> m[i].key < key
    ensures Insert(m, key, value) == m + [Entry(key, value)]
  {
    if m != [] { InsertAtEnd(m[1..], key, value); }
  }

  lemma RoundAfter(h: HashFn, level: seq<Elem>, path: seq<Digest>, up: seq<Elem>)
    requires CanStep(level, path)
    ensures Round(h, level, path).After(up)
         == Round(h, LevelAfter(level), PathAfter(level, path)).After(up + [Combined(h, level, path)])
  {
    AfterAfter(Round(h, LevelAfter(level), PathAfter(level, path)), up, [Combined(h, level, path)]);
  }

  /** All keys of `up` are below half of the first key of `level`. */
  ghost predicate Behind(up: seq<Elem>, level: seq<Elem>) {
    level != [] ==> forall i :: 0 <= i < |up| ==> up[i].key < level[0].key / 2
  }

  /** Combining the first nodes appends a key that is still behind what remains. */
  lemma StepKeepsOrder(level: seq<Elem>, up: seq<Elem>, value: Digest)
    requires Sorted(level) && level != [] && Behind(up, level)
    ensures Sorted(LevelAfter(level)) && Behind(up + [Entry(level[0].key / 2, value)], LevelAfter(level))
    ensures Insert(up, level[0].key / 2, value) == up + [Entry(level[0].key / 2, value)]
  {
    InsertAtEnd(up, level[0].key / 2, value);
  }

  method RunRound(h: HashFn, start: seq<Elem>, path: seq<Digest>, from: nat)
    returns (ok: bool, next: seq<Elem>, to: nat)
    requires Sorted(start) && from <= |path|
    ensures ok ==> from <= to <= |path|
    ensures Round(h, start, path[from..]) == if ok then Done(next, path[to..]) else Stuck
  {
    hide Sorted, Behind, Insert, Get, Remove, Sibling;
    var level := start;
    ok, next, to := true, [], from;
    assert Behind(next, level) && Round(h, level, path[to..]).After(next) == Round(h, level, path[to..]) by {
      BehindNothing(level);
    }
    hide Round;
    while level != []
      invariant Sorted(level) && from <= to <= |path| && Behind(next, level)
      invariant Round(h, start, path[from..]) == Round(h, level, path[to..]).After(next)
      decreases |level|
    {
      PopSibling(level);
      var head := level[0];
      ghost var before, step := level, path[to..];
      level := level[1..];
      var sibling;
      match Get(level, Sibling(head.key)) {
        case Found(s) =>
          level := Remove(level, Sibling(head.key));
          sibling := s;
        case Missing =>
          if to == |path| {
            RoundStuck(h, before, step);
            return false, next, to;
          }
          sibling := path[to];
          to := to + 1;
      }
      var (left, right) := if head.key % 2 == 0 then (head.value, sibling) else (sibling, head.value);
      assert level == LevelAfter(before) && path[to..] == PathAfter(before, step);
      assert HashNode(h, left, right) == Combined(h, before, step).value;
      RoundAfter(h, before, step, next);
      StepKeepsOrder(before, next, HashNode(h, left, right));
      next := Insert(next, head.key / 2, HashNode(h, left, right));
    }
    RoundOfNothing(h, path[to..], next);
  }

  lemma BehindNothing(level: seq<Elem>)
    ensures Behind([], level)
  {
  }

  lemma RoundStuck(h: HashFn, level: seq<Elem>, path: seq<Digest>)
    requires level != [] && !CanStep(level, path)
    ensures Round(h, level, path) == Stuck
  {
  }

  lemma RoundOfNothing(h: HashFn, path: seq<Digest>, up: seq<Elem>)
    ensures Round(h, [], path).After(up) == Done(up, path)
  {
  }

  lemma AfterAfter(o: Outcome, a: seq<Elem>, b: seq<Elem>)
    ensures o.After(b).After(a) == o.After(a + b)
  {
    if o.Done? { assert a + (b + o.level) == (a + b) + o.level; }
  }

  method VerifyBatch(h: HashFn, proof: Proof, elems: seq<Elem>, root: Digest) returns (ok: bool)
    ensures ok <==> BatchAccepts(h, elems, proof.treeDepth, proof.path, root)
    ensures elems == [] ==> (ok <==> proof.path == [])
  {
    hide Round, Sorted, Collect, LastWins, Contents;
    if elems == [] { return proof.path == []; }
    var level := CollectAll(elems);
    CollectLastWins(elems);
    var pos := 0;
    var round := 0;
    while round < proof.treeDepth
      invariant 0 <= round <= proof.treeDepth && 0 <= pos <= |proof.path| && Sorted(level)
      invariant Rounds(h, Collect(elems), proof.treeDepth, proof.path)
             == Rounds(h, level, proof.treeDepth - round, proof.path[pos..])
    {
      var more, next, to := RunRound(h, level, proof.path, pos);
      if !more { return false; }
      RoundSorted(h, level, proof.path[pos..]);
      level, pos, round := next, to, round + 1;
    }
    ok := |level| == 1 && level[0].value == root && pos == |proof.path|;
  }

  method CollectAll(elems: seq<Elem>) returns (m: seq<Elem>)
    ensures m == Collect(elems)
  {
    m := [];
    var i := 0;
    while i < |elems|
      invariant 0 <= i <= |elems| && m == Collect(elems[..i])
    {
      assert elems[..i + 1][..i] == elems[..i];
      m := Insert(m, elems[i].key, elems[i].value);
      i := i + 1;
    }
    assert elems[..i] == elems;
  }

  // ---------------------------------------------------------------- keys

  ghost function Halves(S: set<nat>): set<nat> {
    set k | k in S :: k / 2
  }

  /** A finished round has exactly the parents' keys, in order: no insertion overwrites another. */
  lemma {:induction false} RoundKeys(h: HashFn, level: seq<Elem>, path: seq<Digest>)
    requires Sorted(level)
    ensures var o := Round(h, level, path);
            o.Done? ==>
              && Sorted(o.level) && Keys(o.level) == Halves(Keys(level))
              && (o.level == [] <==> level == [])
              && (level != [] ==> o.level[0].key == level[0].key / 2)
    decreases |level|
  {
    if CanStep(level, path) {
      var after, rest := LevelAfter(level), PathAfter(level, path);
      RoundKeys(h, after, rest);
      var o := Round(h, after, rest);
      if o.Done? {
        SortedCons(Combined(h, level, path), o.level);
        KeysCons(Combined(h, level, path), o.level);
        HalvesAfter(level);
      }
    }
  }

  lemma RoundSorted(h: HashFn, level: seq<Elem>, path: seq<Digest>)
    requires Sorted(level)
    ensures Round(h, level, path).Done? ==> Sorted(Round(h, level, path).level)
  {
    RoundKeys(h, level, path);
  }

  lemma HalvesAfter(level: seq<Elem>)
    requires level != []
    ensures Halves(Keys(level)) == {level[0].key / 2} + Halves(Keys(LevelAfter(level)))
  {
    KeysCons(level[0], level[1..]);
    assert level == [level[0]] + level[1..];
    if Paired(level) {
      KeysCons(level[1], level[2..]);
      assert level[1..] == [level[1]] + level[2..];
      assert level[1].key / 2 == level[0].key / 2;
    }
    assert level[0].key in Keys(level);
  }

  // ---------------------------------------------------------------- the reference path

  /** The nodes of a level, from position `p` up, that are absent from the batch but whose sibling is in it. */
  ghost function Absent(row: seq<Digest>, S: set<nat>, p: nat): seq<Digest>
    decreases |row| - p
  {
    if p >= |row| then []
    else (if p !in S && Sibling(p) in S then [row[p]] else []) + Absent(row, S, p + 1)
  }

  /** The absent siblings of every level below the root, in level order and ascending position. */
  ghost function BatchPath(levels: seq<seq<Digest>>, S: set<nat>): seq<Digest> {
    if |levels| <= 1 then [] else Absent(levels[0], S, 0) + BatchPath(levels[1..], Halves(S))
  }

  /** Every node of the level is the tree's node at that position. */
  ghost predicate Matches(level: seq<Elem>, row: seq<Digest>) {
    forall i :: 0 <= i < |level| ==> level[i].key < |row| && level[i].value == row[level[i].key]
  }

  ghost predicate Within(level: seq<Elem>, row: seq<Digest>) {
    |row| % 2 == 0 && forall i :: 0 <= i < |level| ==> level[i].key < |row|
  }

  /** What one greedy round takes from the path when the tree supplies it. */
  ghost function Taken(row: seq<Digest>, level: seq<Elem>): seq<Digest>
    requires Within(level, row)
    decreases |level|
  {
    if level == [] then []
    else Supplied(row, level) + Taken(row, LevelAfter(level))
  }

  /** What the first step takes from the path when the tree supplies it. */
  ghost function Supplied(row: seq<Digest>, level: seq<Elem>): seq<Digest>
    requires Within(level, row) && level != []
  {
    if Paired(level) then [] else [row[Sibling(level[0].key)]]
  }

  /** The level lists, in order, exactly the positions of `S` from `p` up. */
  ghost predicate Lists(level: seq<Elem>, S: set<nat>, p: nat) {
    && Sorted(level)
    && (forall i :: 0 <= i < |level| ==> p <= level[i].key)
    && (forall k :: p <= k ==> (k in S <==> k in Keys(level)))
  }

  /** The greedy order of consumption is the ascending order of the absent siblings. */
  lemma {:induction false} TakenIsAbsent(row: seq<Digest>, level: seq<Elem>, S: set<nat>, p: nat)
    requires Within(level, row) && p % 2 == 0 && Lists(level, S, p)
    ensures Taken(row, level) == Absent(row, S, p)
    decreases |row| - p
  {
    hide Taken, Absent, Lists, Paired;
    if p >= |row| {
      EndOfRow(row, level, S, p);
    } else {
      AbsentPair(row, S, p);
      if level == [] || level[0].key >= p + 2 {
        SkipPair(level, S, p);
        TakenIsAbsent(row, level, S, p + 2);
      } else {
        HeadOfPair(level, S, p);
        AfterWithin(level, row);
        StartsAt(level, S, p);
        TakenIsAbsent(row, LevelAfter(level), S, p + 2);
        TakenHead(row, level, S, p);
      }
    }
  }

  lemma EndOfRow(row: seq<Digest>, level: seq<Elem>, S: set<nat>, p: nat)
    requires Within(level, row) && Lists(level, S, p) && p >= |row|
    ensures Taken(row, level) == [] == Absent(row, S, p)
  {
    if level != [] { StartsAt(level, S, p); }
  }

  lemma StartsAt(level: seq<Elem>, S: set<nat>, p: nat)
    requires Lists(level, S, p) && level != []
    ensures p <= level[0].key
  {
  }

  lemma AfterWithin(level: seq<Elem>, row: seq<Digest>)
    requires level != [] && Within(level, row)
    ensures Within(LevelAfter(level), row)
    ensures level[0].key < |row| && Sibling(level[0].key) < |row| && (Paired(level) ==> level[1].key < |row|)
  {
  }

  lemma SkipPair(level: seq<Elem>, S: set<nat>, p: nat)
    requires Lists(level, S, p) && (level == [] || level[0].key >= p + 2)
    ensures Lists(level, S, p + 2) && p !in S && p + 1 !in S
  {
  }

  lemma TakenHead(row: seq<Digest>, level: seq<Elem>, S: set<nat>, p: nat)
    requires Within(level, row) && level != [] && p % 2 == 0 && p <= level[0].key < p + 2 && p + 1 < |row|
    requires p in S <==> level[0].key == p
    requires p + 1 in S <==> level[0].key == p + 1 || Paired(level)
    ensures Within(LevelAfter(level), row)
    ensures Taken(row, level)
         == (if (p in S) == (p + 1 in S) then [] else if p in S then [row[p + 1]] else [row[p]])
          + Taken(row, LevelAfter(level))
  {
    AfterWithin(level, row);
  }

  lemma AbsentPair(row: seq<Digest>, S: set<nat>, p: nat)
    requires p < |row| && p % 2 == 0 && |row| % 2 == 0
    ensures Absent(row, S, p)
         == (if (p in S) == (p + 1 in S) then [] else if p in S then [row[p + 1]] else [row[p]])
          + Absent(row, S, p + 2)
  {
    assert Sibling(p) == p + 1 && Sibling(p + 1) == p;
  }

  /** If the level starts inside the pair `p`, `p + 1`, one step uses up exactly that pair. */
  lemma HeadOfPair(level: seq<Elem>, S: set<nat>, p: nat)
    requires Lists(level, S, p) && level != [] && p % 2 == 0 && level[0].key < p + 2
    ensures Lists(LevelAfter(level), S, p + 2)
    ensures p in S <==> level[0].key == p
    ensures p + 1 in S <==> level[0].key == p + 1 || Paired(level)
  {
    hide Keys;
    KeysCons(level[0], level[1..]);
    assert level == [level[0]] + level[1..];
    if Paired(level) {
      KeysCons(level[1], level[2..]);
      assert level[1..] == [level[1]] + level[2..];
    } else {
      KeysFrom(level[1..], p + 2);
    }
  }

  lemma KeysFrom(level: seq<Elem>, p: nat)
    requires forall i :: 0 <= i < |level| ==> p <= level[i].key
    ensures forall k :: k in Keys(level) ==> p <= k
  {
  }

  // ---------------------------------------------------------------- completeness

  /** What a step takes from a path that starts with the absent siblings. */
  lemma TakenFirst(row: seq<Digest>, level: seq<Elem>, rest: seq<Digest>)
    requires level != [] && Within(level, row) && Within(LevelAfter(level), row) && Sibling(level[0].key) < |row|
    ensures var path := Taken(row, level) + rest;
            && CanStep(level, path) && PathAfter(level, path) == Taken(row, LevelAfter(level)) + rest
            && (Paired(level) || path[0] == row[Sibling(level[0].key)])
  {
    hide Within, Paired, Taken;
    TakenUnfold(row, level);
    var more := Taken(row, LevelAfter(level));
    assert Taken(row, level) + rest == Supplied(row, level) + (more + rest);
    StepOverPath(level, Supplied(row, level), more + rest);
  }

  lemma TakenUnfold(row: seq<Digest>, level: seq<Elem>)
    requires level != [] && Within(level, row) && Within(LevelAfter(level), row)
    ensures Taken(row, level) == Supplied(row, level) + Taken(row, LevelAfter(level))
    ensures |Supplied(row, level)| == if Paired(level) then 0 else 1
    ensures !Paired(level) ==> Sibling(level[0].key) < |row| && Supplied(row, level)[0] == row[Sibling(level[0].key)]
  {
    hide Paired, Sibling;
    SiblingInRow(level[0].key, |row|);
  }

  lemma SiblingInRow(k: nat, n: nat)
    requires n % 2 == 0 && k < n
    ensures Sibling(k) < n
  {
  }

  lemma StepOverPath(level: seq<Elem>, first: seq<Digest>, rest: seq<Digest>)
    requires level != [] && |first| == if Paired(level) then 0 else 1
    ensures CanStep(level, first + rest) && PathAfter(level, first + rest) == rest
    ensures !Paired(level) ==> (first + rest)[0] == first[0]
  {
    hide Paired;
  }

  /** On a level that matches the tree, one step hashes what the tree hashed. */
  lemma StepCompleteness(row: seq<Digest>, pad: Digest, level: seq<Elem>, path: seq<Digest>)
    requires Within(level, row) && Matches(level, row) && CanStep(level, path)
    requires Sibling(level[0].key) < |row| && (Paired(level) || path[0] == row[Sibling(level[0].key)])
    ensures level[0].key < |row|
    ensures FirstPreimage(level, path) == ParentPreimage(row, level[0].key / 2, pad)
  {
    HeadMatches(level, row);
    StepIsParent(row, level[0].key, pad);
  }

  lemma AfterMatches(level: seq<Elem>, row: seq<Digest>)
    requires level != [] && Matches(level, row)
    ensures Matches(LevelAfter(level), row)
  {
  }

  lemma HeadMatches(level: seq<Elem>, row: seq<Digest>)
    requires level != [] && Matches(level, row)
    ensures level[0].key < |row| && level[0].value == row[level[0].key]
    ensures Paired(level) ==> level[1].key < |row| && level[1].value == row[level[1].key]
  {
  }

  /** On a level that matches the tree, a round takes the absent siblings and reaches the parents. */
  lemma {:induction false} RoundCompleteness(
    h: HashFn, row: seq<Digest>, pad: Digest, level: seq<Elem>, rest: seq<Digest>)
    requires Within(level, row) && Matches(level, row)
    ensures var o := Round(h, level, Taken(row, level) + rest);
            o.Done? && o.path == rest && Matches(o.level, Parents(h, row, pad))
    decreases |level|
  {
    if level != [] {
      AfterWithin(level, row);
      AfterMatches(level, row);
      TakenFirst(row, level, rest);
      StepCompleteness(row, pad, level, Taken(row, level) + rest);
      RoundCompleteness(h, row, pad, LevelAfter(level), rest);
      MatchesCons(Combined(h, level, Taken(row, level) + rest),
                  Round(h, LevelAfter(level), Taken(row, LevelAfter(level)) + rest).level, Parents(h, row, pad));
    }
  }

  lemma MatchesCons(e: Elem, level: seq<Elem>, row: seq<Digest>)
    requires e.key < |row| && e.value == row[e.key]
    ensures Matches([e] + level, row) <==> Matches(level, row)
  {
    assert Matches([e] + level, row) ==> forall i :: 0 <= i < |level| ==> ([e] + level)[i + 1] == level[i];
  }

  /**
   Batch completeness: over any leaf level of width `2^d`, any non-empty sorted batch of the tree's own
   leaves reaches the root when the path lists exactly the absent siblings.
   */
  lemma {:induction false} RoundsCompleteness(h: HashFn, leaves: seq<Digest>, pad: Digest, d: nat, level: seq<Elem>)
    requires |leaves| == Pow2(d) && level != [] && Sorted(level) && Matches(level, leaves)
    ensures Rounds(h, level, d, BatchPath(Levels(h, leaves, pad), Keys(level)))
         == Done([Entry(0, Root(Levels(h, leaves, pad)))], [])
    decreases d
  {
    hide Round, Levels, BatchPath, Keys, Root;
    if d == 0 {
      SingleNode(level, leaves);
      SingleLevel(h, leaves, pad, Keys(level));
    } else {
      var path := BatchPath(Levels(h, leaves, pad), Keys(level));
      LevelCompleteness(h, leaves, pad, level);
      RoundsCompleteness(h, Parents(h, leaves, pad), pad, d - 1, Round(h, level, path).level);
      RootUnfold(h, leaves, pad);
    }
  }

  lemma SingleLevel(h: HashFn, leaves: seq<Digest>, pad: Digest, S: set<nat>)
    requires |leaves| == 1
    ensures BatchPath(Levels(h, leaves, pad), S) == [] && Root(Levels(h, leaves, pad)) == leaves[0]
  {
  }

  /** One round over a tree's own nodes uses up this level's share of the path and leaves the batch of parents. */
  lemma LevelCompleteness(h: HashFn, leaves: seq<Digest>, pad: Digest, level: seq<Elem>)
    requires |leaves| > 1 && |leaves| % 2 == 0 && level != [] && Sorted(level) && Matches(level, leaves)
    ensures var next, o := Parents(h, leaves, pad), Round(h, level, BatchPath(Levels(h, leaves, pad), Keys(level)));
            && o.Done? && o.level != [] && Sorted(o.level) && Matches(o.level, next)
            && o.path == BatchPath(Levels(h, next, pad), Keys(o.level))
  {
    hide Round, Levels, BatchPath, Keys, Taken, Absent;
    var rest := BatchPath(Levels(h, Parents(h, leaves, pad), pad), Halves(Keys(level)));
    ListsAll(level);
    TakenIsAbsent(leaves, level, Keys(level), 0);
    RoundCompleteness(h, leaves, pad, level, rest);
    RoundKeys(h, level, Taken(leaves, level) + rest);
    BatchPathUnfold(h, leaves, pad, Keys(level));
  }

  lemma ListsAll(level: seq<Elem>)
    requires Sorted(level)
    ensures Lists(level, Keys(level), 0)
  {
  }

  lemma Ascending(level: seq<Elem>, i: nat, j: nat)
    requires Sorted(level) && i < j < |level|
    ensures level[i].key < level[j].key
  {
  }

  lemma SingleNode(level: seq<Elem>, row: seq<Digest>)
    requires |row| == 1 && level != [] && Sorted(level) && forall i :: 0 <= i < |level| ==> level[i].key < 1
    ensures |level| == 1 && level[0].key == 0
  {
    if |level| > 1 {
      Ascending(level, 0, 1);
      assert false;
    }
  }

  lemma BatchPathUnfold(h: HashFn, leaves: seq<Digest>, pad: Digest, S: set<nat>)
    requires |leaves| > 1
    ensures BatchPath(Levels(h, leaves, pad), S)
         == Absent(leaves, S, 0) + BatchPath(Levels(h, Parents(h, leaves, pad), pad), Halves(S))
  {
    assert Levels(h, leaves, pad)[1..] == Levels(h, Parents(h, leaves, pad), pad);
  }

  lemma {:induction false} AbsentSized(h: HashFn, row: seq<Digest>, S: set<nat>, p: nat)
    requires h.Sized(row)
    ensures h.Sized(Absent(row, S, p))
    decreases |row| - p
  {
    if p < |row| { AbsentSized(h, row, S, p + 1); }
  }

  /** The reference path consists of digests. */
  lemma {:induction false} BatchPathSized(h: HashFn, leaves: seq<Digest>, pad: Digest, S: set<nat>)
    requires h.Valid() && |pad| == h.size && h.Sized(leaves)
    ensures h.Sized(BatchPath(Levels(h, leaves, pad), S))
    decreases |leaves|
  {
    if |leaves| > 1 {
      hide Absent, Levels, BatchPath, Halves;
      AbsentSized(h, leaves, S, 0);
      BatchPathSized(h, Parents(h, leaves, pad), pad, Halves(S));
      BatchPathUnfold(h, leaves, pad, S);
    }
  }

  // ---------------------------------------------------------------- binding

  /** The inputs hashed by a round. */
  function RoundPreimages(h: HashFn, level: seq<Elem>, path: seq<Digest>): set<seq<Byte>>
    decreases |level|
  {
    if !CanStep(level, path) then {}
    else {FirstPreimage(level, path)} + RoundPreimages(h, LevelAfter(level), PathAfter(level, path))
  }

  function RoundsPreimages(h: HashFn, level: seq<Elem>, depth: nat, path: seq<Digest>): set<seq<Byte>>
    decreases depth
  {
    if depth == 0 then {}
    else
      RoundPreimages(h, level, path) +
      match Round(h, level, path)
      case Stuck => {}
      case Done(up, rest) => RoundsPreimages(h, up, depth - 1, rest)
  }

  ghost predicate SizedLevel(h: HashFn, level: seq<Elem>) {
    forall i :: 0 <= i < |level| ==> |level[i].value| == h.size
  }

  /** A round that reaches the tree's parents started from the tree's nodes and took the absent siblings. */
  lemma {:induction false} RoundBinding(h: HashFn, row: seq<Digest>, pad: Digest, level: seq<Elem>, path: seq<Digest>)
    requires h.Valid() && Within(level, row) && h.Sized(row) && SizedLevel(h, level) && h.Sized(path)
    requires Round(h, level, path).Done? && Matches(Round(h, level, path).level, Parents(h, row, pad))
    ensures (Matches(level, row) && path == Taken(row, level) + Round(h, level, path).path)
         || h.CollisionBetween(RoundPreimages(h, level, path), LevelPreimages(row, pad))
    decreases |level|
  {
    if level != [] {
      var x, y := FirstPreimage(level, path), ParentPreimage(row, level[0].key / 2, pad);
      var after, rest := LevelAfter(level), PathAfter(level, path);
      var ours, trees := RoundPreimages(h, level, path), LevelPreimages(row, pad);
      RoundUnfold(h, row, pad, level, path);
      RoundBinding(h, row, pad, after, rest);
      if x != y {
        assert h.Collide(x, y);
      } else if h.CollisionBetween(RoundPreimages(h, after, rest), trees) {
        CollisionMonotone(h, RoundPreimages(h, after, rest), trees, ours, trees);
      } else {
        assert Matches(level, row) && path == Taken(row, level) + Round(h, level, path).path by {
          FirstSized(h, row, level, path);
          FirstStepBinding(row, pad, level, path);
          AfterWithin(level, row);
          StepMatches(row, level);
          StepTakes(row, level, path, Round(h, level, path).path);
        }
      }
    }
  }

  lemma FirstSized(h: HashFn, row: seq<Digest>, level: seq<Elem>, path: seq<Digest>)
    requires CanStep(level, path) && Within(level, row) && h.Sized(row) && SizedLevel(h, level) && h.Sized(path)
    ensures |level[0].value| == |row[level[0].key]| == |row[Sibling(level[0].key)]|
    ensures if Paired(level) then |level[1].value| == |level[0].value| else |path[0]| == |level[0].value|
  {
  }

  /** The first node of a round that reaches the parents is the parents' node, and so are the others. */
  lemma RoundUnfold(h: HashFn, row: seq<Digest>, pad: Digest, level: seq<Elem>, path: seq<Digest>)
    requires Within(level, row) && level != [] && SizedLevel(h, level) && h.Sized(path)
    requires Round(h, level, path).Done? && Matches(Round(h, level, path).level, Parents(h, row, pad))
    ensures CanStep(level, path)
    ensures var o := Round(h, LevelAfter(level), PathAfter(level, path));
            o.Done? && o.path == Round(h, level, path).path && Matches(o.level, Parents(h, row, pad))
    ensures Within(LevelAfter(level), row) && SizedLevel(h, LevelAfter(level)) && h.Sized(PathAfter(level, path))
    ensures level[0].key < |row|
    ensures h.digest(FirstPreimage(level, path)) == h.digest(ParentPreimage(row, level[0].key / 2, pad))
    ensures ParentPreimage(row, level[0].key / 2, pad) in LevelPreimages(row, pad)
  {
    AfterWithin(level, row);
    var o := Round(h, LevelAfter(level), PathAfter(level, path));
    var up := [Combined(h, level, path)] + o.level;
    assert up[0].key < |Parents(h, row, pad)| && up[0].value == Parents(h, row, pad)[up[0].key];
    MatchesCons(up[0], o.level, Parents(h, row, pad));
  }

  lemma StepMatches(row: seq<Digest>, level: seq<Elem>)
    requires level != [] && Within(level, row) && Matches(LevelAfter(level), row)
    requires level[0].value == row[level[0].key] && (Paired(level) ==> level[1].value == row[level[1].key])
    ensures Matches(level, row)
  {
    if Paired(level) {
      MatchesCons2(level[0], level[1], level[2..], row);
      assert level == [level[0]] + ([level[1]] + level[2..]);
    } else {
      MatchesCons(level[0], level[1..], row);
      assert level == [level[0]] + level[1..];
    }
  }

  lemma StepTakes(row: seq<Digest>, level: seq<Elem>, path: seq<Digest>, rest: seq<Digest>)
    requires CanStep(level, path) && Within(level, row) && Within(LevelAfter(level), row)
    requires PathAfter(level, path) == Taken(row, LevelAfter(level)) + rest
    requires Sibling(level[0].key) < |row| && (Paired(level) || path[0] == row[Sibling(level[0].key)])
    ensures path == Taken(row, level) + rest
  {
    hide Within, Paired, Taken, Supplied;
    TakenUnfold(row, level);
    assert path == Supplied(row, level) + PathAfter(level, path);
    assert Supplied(row, level) + (Taken(row, LevelAfter(level)) + rest) == Taken(row, level) + rest;
  }

  lemma MatchesCons2(e: Elem, f: Elem, level: seq<Elem>, row: seq<Digest>)
    requires e.key < |row| && e.value == row[e.key] && f.key < |row| && f.value == row[f.key] && Matches(level, row)
    ensures Matches([e] + ([f] + level), row)
  {
    MatchesCons(f, level, row);
    MatchesCons(e, [f] + level, row);
  }

  lemma FirstStepBinding(row: seq<Digest>, pad: Digest, level: seq<Elem>, path: seq<Digest>)
    requires CanStep(level, path) && Within(level, row)
    requires FirstPreimage(level, path) == ParentPreimage(row, level[0].key / 2, pad)
    requires |level[0].value| == |row[level[0].key]| == |row[Sibling(level[0].key)]|
    requires if Paired(level) then |level[1].value| == |level[0].value| else |path[0]| == |level[0].value|
    ensures level[0].value == row[level[0].key]
    ensures if Paired(level) then level[1].value == row[level[1].key] else path[0] == row[Sibling(level[0].key)]
  {
    StepIsParent(row, level[0].key, pad);
    StepPreimageInjective(level[0].value, if Paired(level) then level[1].value else path[0],
                          row[level[0].key], row[Sibling(level[0].key)], level[0].key);
  }

  lemma {:induction false} RoundShape(h: HashFn, row: seq<Digest>, level: seq<Elem>, path: seq<Digest>)
    requires h.Valid() && Within(level, row) && h.Sized(path) && Round(h, level, path).Done?
    ensures var o := Round(h, level, path);
            && SizedLevel(h, o.level) && h.Sized(o.path)
            && forall i :: 0 <= i < |o.level| ==> o.level[i].key < |row| / 2
    decreases |level|
  {
    if level != [] {
      AfterWithin(level, row);
      RoundShape(h, row, LevelAfter(level), PathAfter(level, path));
    }
  }

  /** The level holds the tree's own nodes and the path is the reference path for its keys. */
  ghost predicate Opens(h: HashFn, leaves: seq<Digest>, pad: Digest, level: seq<Elem>, path: seq<Digest>) {
    Matches(level, leaves) && path == BatchPath(Levels(h, leaves, pad), Keys(level))
  }

  lemma OpensFromRound(h: HashFn, leaves: seq<Digest>, pad: Digest, level: seq<Elem>, path: seq<Digest>)
    requires |leaves| > 1 && Within(level, leaves) && Sorted(level) && Round(h, level, path).Done?
    requires Opens(h, Parents(h, leaves, pad), pad, Round(h, level, path).level, Round(h, level, path).path)
    requires Matches(level, leaves) && path == Taken(leaves, level) + Round(h, level, path).path
    ensures Opens(h, leaves, pad, level, path)
  {
    RoundKeys(h, level, path);
    TakenIsAbsent(leaves, level, Keys(level), 0);
    BatchPathUnfold(h, leaves, pad, Keys(level));
  }

  ghost predicate Below(level: seq<Elem>, bound: nat) {
    forall i :: 0 <= i < |level| ==> level[i].key < bound
  }

  /** What every round of a well-formed batch starts from. */
  ghost predicate Batch(h: HashFn, level: seq<Elem>, path: seq<Digest>, width: nat) {
    level != [] && Sorted(level) && SizedLevel(h, level) && h.Sized(path) && Below(level, width)
  }

  lemma RoundPreservesShape(h: HashFn, leaves: seq<Digest>, level: seq<Elem>, path: seq<Digest>)
    requires h.Valid() && |leaves| % 2 == 0 && Batch(h, level, path, |leaves|) && Round(h, level, path).Done?
    ensures Batch(h, Round(h, level, path).level, Round(h, level, path).path, |leaves| / 2)
  {
    RoundShape(h, leaves, level, path);
    RoundKeys(h, level, path);
  }

  /** If the next level opens the parents or collides, then this level opens the tree or collides. */
  lemma RoundsBindingStep(h: HashFn, leaves: seq<Digest>, pad: Digest, d: nat, level: seq<Elem>, path: seq<Digest>)
    requires h.Valid() && h.Sized(leaves) && |leaves| > 1 && |leaves| % 2 == 0 && d > 0
    requires Batch(h, level, path, |leaves|) && Round(h, level, path).Done?
    requires var o := Round(h, level, path);
             || Opens(h, Parents(h, leaves, pad), pad, o.level, o.path)
             || h.CollisionBetween(RoundsPreimages(h, o.level, d - 1, o.path),
                                   TreePreimages(h, Parents(h, leaves, pad), pad))
    ensures Opens(h, leaves, pad, level, path)
         || h.CollisionBetween(RoundsPreimages(h, level, d, path), TreePreimages(h, leaves, pad))
  {
    var o := Round(h, level, path);
    var ours, trees := RoundsPreimages(h, level, d, path), TreePreimages(h, leaves, pad);
    var above, treesAbove := RoundsPreimages(h, o.level, d - 1, o.path), TreePreimages(h, Parents(h, leaves, pad), pad);
    if h.CollisionBetween(above, treesAbove) {
      CollisionMonotone(h, above, treesAbove, ours, trees);
    } else {
      RoundBinding(h, leaves, pad, level, path);
      if h.CollisionBetween(RoundPreimages(h, level, path), LevelPreimages(leaves, pad)) {
        CollisionMonotone(h, RoundPreimages(h, level, path), LevelPreimages(leaves, pad), ours, trees);
      } else {
        OpensFromRound(h, leaves, pad, level, path);
      }
    }
  }

  lemma SingleOpens(h: HashFn, leaves: seq<Digest>, pad: Digest, level: seq<Elem>, path: seq<Digest>)
    requires |leaves| == 1 && |level| == 1 && level[0].key == 0
    requires level[0].value == Root(Levels(h, leaves, pad)) && path == []
    ensures Opens(h, leaves, pad, level, path)
  {
    SingleLevel(h, leaves, pad, Keys(level));
  }

  /**
   Batch binding: over a leaf level of width `2^d`, whatever non-empty sorted batch and path reach the
   root are the tree's own leaves and exactly the absent siblings, or expose a collision.
   */
  lemma {:induction false} RoundsBinding(
    h: HashFn, leaves: seq<Digest>, pad: Digest, d: nat, level: seq<Elem>, path: seq<Digest>)
    requires h.Valid() && |pad| == h.size && h.Sized(leaves)
    requires |leaves| == Pow2(d) && Batch(h, level, path, |leaves|)
    requires ReachesRoot(h, level, d, path, Root(Levels(h, leaves, pad)))
    ensures Opens(h, leaves, pad, level, path)
         || h.CollisionBetween(RoundsPreimages(h, level, d, path), TreePreimages(h, leaves, pad))
    decreases d
  {
    hide Round, Opens, RoundsPreimages, TreePreimages, Levels, Root;
    if d == 0 {
      SingleNode(level, leaves);
      SingleOpens(h, leaves, pad, level, path);
    } else {
      var o := Round(h, level, path);
      RoundPreservesShape(h, leaves, level, path);
      RootUnfold(h, leaves, pad);
      RoundsBinding(h, Parents(h, leaves, pad), pad, d - 1, o.level, o.path);
      RoundsBindingStep(h, leaves, pad, d, level, path);
    }
  }

  // ---------------------------------------------------------------- whole batches

  /** The inputs hashed by a batch verification. */
  function BatchPreimages(h: HashFn, elems: seq<Elem>, depth: nat, path: seq<Digest>): set<seq<Byte>> {
    RoundsPreimages(h, Collect(elems), depth, path)
  }

  /** The entry is the last one of its key. */
  ghost predicate LastEntry(elems: seq<Elem>, e: Elem) {
    exists i: nat :: IsLast(elems, i) && elems[i] == e
  }

  /** The collected map has the keys of the batch, and what the last entry of each key says. */
  lemma CollectElems(elems: seq<Elem>)
    ensures Sorted(Collect(elems)) && Keys(Collect(elems)) == Keys(elems)
    ensures elems != [] ==> Collect(elems) != []
    ensures forall k: nat :: k < |Collect(elems)| ==> LastEntry(elems, Collect(elems)[k])
    ensures forall i: nat :: IsLast(elems, i) ==> elems[i] in Collect(elems)
  {
    hide LastWins, Contents, Collect, Keys, Sorted;
    var level := Collect(elems);
    CollectLastWins(elems);
    ContentsKeys(level);
    LastWinsKeys(elems);
    if elems != [] {
      KeyIsListed(elems, 0);
      var k := PositionOf(level, elems[0].key);
      assert k < |level|;
    }
    forall k: nat | k < |level|
      ensures LastEntry(elems, level[k])
    {
      KeyIsListed(level, k);
      var j := PositionOf(elems, level[k].key);
      var i := LastExists(elems, j);
      ContentsAt(level, k);
      LastWinsAt(elems, i);
      assert elems[i] == level[k];
    }
    forall i: nat | IsLast(elems, i)
      ensures elems[i] in level
    {
      KeyIsListed(elems, i);
      var k := PositionOf(level, elems[i].key);
      ContentsAt(level, k);
      LastWinsAt(elems, i);
      assert elems[i] == level[k];
    }
  }

  lemma KeyIsListed(elems: seq<Elem>, i: nat)
    requires i < |elems|
    ensures elems[i].key in Keys(elems)
  {
  }

  lemma PositionOf(elems: seq<Elem>, key: nat) returns (i: nat)
    requires key in Keys(elems)
    ensures i < |elems| && elems[i].key == key
  {
    i :| i < |elems| && elems[i].key == key;
  }

  /** The last entry of every index is the tree's leaf there; earlier entries are free. */
  ghost predicate LastMatches(elems: seq<Elem>, leaves: seq<Digest>) {
    forall i: nat :: IsLast(elems, i) ==> elems[i].key < |leaves| && elems[i].value == leaves[elems[i].key]
  }

  lemma LastMatchesCollected(elems: seq<Elem>, leaves: seq<Digest>)
    ensures LastMatches(elems, leaves) <==> Matches(Collect(elems), leaves)
  {
    hide Collect;
    var level := Collect(elems);
    CollectElems(elems);
    if LastMatches(elems, leaves) {
      forall k: nat | k < |level|
        ensures level[k].key < |leaves| && level[k].value == leaves[level[k].key]
      {
        assert LastEntry(elems, level[k]);
      }
    }
    if Matches(level, leaves) {
      forall i: nat | IsLast(elems, i)
        ensures elems[i].key < |leaves| && elems[i].value == leaves[elems[i].key]
      {
        var k: nat :| k < |level| && level[k] == elems[i];
      }
    }
  }

  /** The last entries are the tree's own leaves and the path is the reference path for the batch's indices. */
  ghost predicate LastOpens(h: HashFn, leaves: seq<Digest>, pad: Digest, elems: seq<Elem>, path: seq<Digest>) {
    LastMatches(elems, leaves) && path == BatchPath(Levels(h, leaves, pad), Keys(elems))
  }

  /** With distinct indices this is a statement about every entry. */
  lemma DistinctOpens(h: HashFn, leaves: seq<Digest>, pad: Digest, elems: seq<Elem>, path: seq<Digest>)
    requires Distinct(elems)
    ensures LastOpens(h, leaves, pad, elems, path) <==> Opens(h, leaves, pad, elems, path)
  {
    hide BatchPath, Levels, Keys;
    DistinctAllLast(elems);
  }

  /**
   A batch is accepted with the path of absent siblings if the last entry of every index is the tree's own
   leaf, in whatever order the entries are listed.
   */
  lemma BatchCompleteness(h: HashFn, leaves: seq<Digest>, pad: Digest, d: nat, elems: seq<Elem>)
    requires |leaves| == Pow2(d) && elems != [] && LastMatches(elems, leaves)
    ensures BatchAccepts(h, elems, d, BatchPath(Levels(h, leaves, pad), Keys(elems)), Root(Levels(h, leaves, pad)))
  {
    hide Collect, LastMatches, Matches, Rounds, BatchPath, Levels, Root, Keys, Sorted;
    CollectElems(elems);
    LastMatchesCollected(elems, leaves);
    RoundsCompleteness(h, leaves, pad, d, Collect(elems));
  }

  /**
   An accepted batch of in-range indices, repeated or not, has the tree's own leaf in the last entry of every
   index and the path of absent siblings, or exposes a collision.
   */
  lemma BatchBinding(h: HashFn, leaves: seq<Digest>, pad: Digest, d: nat, elems: seq<Elem>, path: seq<Digest>)
    requires h.Valid() && |pad| == h.size && h.Sized(leaves) && SizedLevel(h, elems) && h.Sized(path)
    requires |leaves| == Pow2(d) && elems != [] && Below(elems, |leaves|)
    requires BatchAccepts(h, elems, d, path, Root(Levels(h, leaves, pad)))
    ensures LastOpens(h, leaves, pad, elems, path)
         || h.CollisionBetween(BatchPreimages(h, elems, d, path), TreePreimages(h, leaves, pad))
  {
    hide Collect, LastMatches, Matches, RoundsPreimages, TreePreimages, BatchPath, Levels, Root, Rounds, Keys, Sorted;
    CollectElems(elems);
    CollectShape(h, elems, |leaves|);
    RoundsBinding(h, leaves, pad, d, Collect(elems), path);
    LastMatchesCollected(elems, leaves);
  }

  lemma CollectShape(h: HashFn, elems: seq<Elem>, width: nat)
    requires SizedLevel(h, elems) && Below(elems, width)
    ensures SizedLevel(h, Collect(elems)) && Below(Collect(elems), width)
  {
    hide Collect;
    CollectElems(elems);
  }

  /** Over a tree's own nodes a round hashes nothing that the tree did not hash. */
  lemma {:induction false} RoundInputsInTree(
    h: HashFn, row: seq<Digest>, pad: Digest, level: seq<Elem>, rest: seq<Digest>)
    requires Within(level, row) && Matches(level, row)
    ensures RoundPreimages(h, level, Taken(row, level) + rest) <= LevelPreimages(row, pad)
    decreases |level|
  {
    hide Taken;
    if level != [] {
      AfterWithin(level, row);
      AfterMatches(level, row);
      TakenFirst(row, level, rest);
      StepCompleteness(row, pad, level, Taken(row, level) + rest);
      assert ParentPreimage(row, level[0].key / 2, pad) in LevelPreimages(row, pad);
      RoundInputsInTree(h, row, pad, LevelAfter(level), rest);
    }
  }

  lemma {:induction false} RoundsInputsInTree(h: HashFn, leaves: seq<Digest>, pad: Digest, d: nat, level: seq<Elem>)
    requires |leaves| == Pow2(d) && level != [] && Sorted(level) && Matches(level, leaves)
    ensures RoundsPreimages(h, level, d, BatchPath(Levels(h, leaves, pad), Keys(level)))
         <= TreePreimages(h, leaves, pad)
    decreases d
  {
    hide Round, Levels, BatchPath, Keys, RoundPreimages, LevelPreimages, Taken, Absent;
    if d > 0 {
      var path := BatchPath(Levels(h, leaves, pad), Keys(level));
      var rest := BatchPath(Levels(h, Parents(h, leaves, pad), pad), Halves(Keys(level)));
      LevelCompleteness(h, leaves, pad, level);
      ListsAll(level);
      TakenIsAbsent(leaves, level, Keys(level), 0);
      BatchPathUnfold(h, leaves, pad, Keys(level));
      RoundInputsInTree(h, leaves, pad, level, rest);
      RoundsInputsInTree(h, Parents(h, leaves, pad), pad, d - 1, Round(h, level, path).level);
    }
  }

  /** A batch of a tree's own leaves with the reference path makes the verifier hash only what the tree hashed. */
  lemma BatchInputsInTree(h: HashFn, leaves: seq<Digest>, pad: Digest, d: nat, elems: seq<Elem>)
    requires |leaves| == Pow2(d) && elems != [] && LastMatches(elems, leaves)
    ensures BatchPreimages(h, elems, d, BatchPath(Levels(h, leaves, pad), Keys(elems))) <= TreePreimages(h, leaves, pad)
  {
    hide Collect, LastMatches, Matches, RoundsPreimages, TreePreimages, BatchPath, Levels, Keys, Sorted;
    CollectElems(elems);
    LastMatchesCollected(elems, leaves);
    RoundsInputsInTree(h, leaves, pad, d, Collect(elems));
  }

  /** Only the last entry of every index counts, and the order of the entries does not. */
  lemma BatchLastWins(h: HashFn, elems: seq<Elem>, elems': seq<Elem>, depth: nat, path: seq<Digest>, root: Digest)
    requires elems != [] && elems' != [] && LastWins(elems) == LastWins(elems')
    ensures BatchAccepts(h, elems, depth, path, root) <==> BatchAccepts(h, elems', depth, path, root)
  {
    CollectLastWins(elems);
    CollectLastWins(elems');
    SortedUnique(Collect(elems), Collect(elems'));
  }

  /** A batch of one leaf is accepted exactly by a full-length path that climbs to the root. */
  lemma {:induction false} SingletonRounds(h: HashFn, i: nat, leaf: Digest, depth: nat, path: seq<Digest>)
    ensures Rounds(h, [Entry(i, leaf)], depth, path)
         == if |path| < depth then Stuck
            else Done([Entry(Ancestor(i, depth), Climb(h, leaf, i, path[..depth]))], path[depth..])
    decreases depth
  {
    var level := [Entry(i, leaf)];
    if depth > 0 {
      if path != [] {
        var up := h.digest(StepPreimage(leaf, i, path[0]));
        assert Round(h, level, path) == Done([Entry(i / 2, up)], path[1..]) by {
          assert LevelAfter(level) == [] && Round(h, [], path[1..]) == Done([], path[1..]);
        }
        SingletonRounds(h, i / 2, up, depth - 1, path[1..]);
        if |path| >= depth {
          assert path[..depth][1..] == path[1..][..depth - 1];
        }
      }
    }
  }

  /** A batch of one makes the verifier hash what the climb hashes. */
  lemma {:induction false} SingletonInputs(h: HashFn, i: nat, leaf: Digest, path: seq<Digest>)
    ensures RoundsPreimages(h, [Entry(i, leaf)], |path|, path) == ClimbPreimages(h, leaf, i, path)
    decreases |path|
  {
    var level := [Entry(i, leaf)];
    if path != [] {
      var step := StepPreimage(leaf, i, path[0]);
      assert LevelAfter(level) == [] && Round(h, [], path[1..]) == Done([], path[1..]);
      assert Round(h, level, path) == Done([Entry(i / 2, h.digest(step))], path[1..]);
      assert RoundPreimages(h, level, path) == {step} + RoundPreimages(h, [], path[1..]);
      SingletonInputs(h, i / 2, h.digest(step), path[1..]);
    }
  }

  lemma SingletonCollected(e: Elem)
    ensures Collect([e]) == [e]
  {
    assert [e][..0] == [];
  }

  lemma SingletonBatch(h: HashFn, i: nat, leaf: Digest, depth: nat, path: seq<Digest>, root: Digest)
    ensures BatchAccepts(h, [Entry(i, leaf)], depth, path, root)
       <==> |path| == depth && Climb(h, leaf, i, path) == root
  {
    var elems := [Entry(i, leaf)];
    assert elems[..0] == [];
    assert Collect(elems) == elems;
    SingletonRounds(h, i, leaf, depth, path);
    if |path| == depth { assert path[..depth] == path; }
  }
}
