/** Board generation for the flip-the-tile game (src/lib/gameLogic.js,
    `createBoard`): a fixed pool of 64 tiles, shuffled by Fisher–Yates and laid
    out row-major into an 8×8 grid. The random index drawn at each step of the
    shuffle is an explicit input here: a choice sequence. */
module Board {

  datatype TileKind = Points | Bomb | Life | Multiplier | TryAgain

  /** A tile as the source builds it: `{ type, value }`. The value is the
      point amount of `points` and `try_again` tiles and 0 for the others. */
  datatype Tile = Tile(kind: TileKind, value: int)

  type Grid = seq<seq<Tile>>

  predicate IsGrid(b: Grid) {
    |b| == 8 && forall row :: 0 <= row < |b| ==> |b[row]| == 8
  }

  /** `n` copies of `t`, as one of the source's push loops produces. */
  function Repeat(t: Tile, n: nat): (r: seq<Tile>)
    ensures |r| == n
    ensures multiset(r) == multiset{}[t := n]
  {
    if n == 0 then [] else [t] + Repeat(t, n - 1)
  }

  /** The tile pool before shuffling, built in the order the source pushes:
      the fixed tiers first, then `try_again` filler up to 64 tiles. */
  function Pool(): (r: seq<Tile>)
    ensures |r| == 64
    ensures multiset(r) == FrequencyTable()
  {
    var fixed :=
      Repeat(Tile(Points, 100), 1) + Repeat(Tile(Points, 50), 2)
      + Repeat(Tile(Points, 30), 3) + Repeat(Tile(Points, 20), 5)
      + Repeat(Tile(Points, 10), 10) + Repeat(Tile(Bomb, 0), 3)
      + Repeat(Tile(Life, 0), 2) + Repeat(Tile(Multiplier, 0), 1);
    var remaining := 64 - |fixed|;
    fixed + Repeat(Tile(TryAgain, 1), remaining)
  }

  /** The frequency table of a board: one tier per distinct tile, with its
      number of copies. */
  ghost function FrequencyTable(): multiset<Tile> {
    multiset{}[Tile(Points, 100) := 1] + multiset{}[Tile(Points, 50) := 2]
    + multiset{}[Tile(Points, 30) := 3] + multiset{}[Tile(Points, 20) := 5]
    + multiset{}[Tile(Points, 10) := 10] + multiset{}[Tile(Bomb, 0) := 3]
    + multiset{}[Tile(Life, 0) := 2] + multiset{}[Tile(Multiplier, 0) := 1]
    + multiset{}[Tile(TryAgain, 1) := 37]
  }

  /** A board holds the 27 fixed-tier tiles, 37 one-point `try_again`
      tiles, and nothing else. */
  lemma FrequencyCounts(t: Tile)
    ensures FrequencyTable()[t] ==
      if t == Tile(Points, 100) || t == Tile(Multiplier, 0) then 1
      else if t == Tile(Points, 50) || t == Tile(Life, 0) then 2
      else if t == Tile(Points, 30) || t == Tile(Bomb, 0) then 3
      else if t == Tile(Points, 20) then 5
      else if t == Tile(Points, 10) then 10
      else if t == Tile(TryAgain, 1) then 37
      else 0
  {
  }

  lemma FrequencyTableSize()
    ensures |FrequencyTable()| == 64
  {
    assert |FrequencyTable()| == |multiset(Pool())| == |Pool()|;
  }

  /** `s` with the elements at `i` and `j` exchanged (the destructuring
      assignment of the shuffle loop). */
  function Swap<T>(s: seq<T>, i: nat, j: nat): (r: seq<T>)
    requires i < |s| && j < |s|
    ensures |r| == |s| && r[i] == s[j] && r[j] == s[i]
    ensures forall k :: 0 <= k < |s| && k != i && k != j ==> r[k] == s[k]
  {
    s[i := s[j]][j := s[i]]
  }

  lemma SwapPermutes<T>(s: seq<T>, i: nat, j: nat)
    requires i < |s| && j < |s|
    ensures multiset(Swap(s, i, j)) == multiset(s)
  {
  }

  /** Choices for shuffling `n` tiles: the loop runs for i = n-1 down to 1,
      and the k-th choice is the index j, with 0 <= j <= i, drawn when i is
      n-1-k. */
  predicate ValidChoices(cs: seq<nat>, n: nat) {
    && |cs| == (if n <= 1 then 0 else n - 1)
    && forall k :: 0 <= k < |cs| ==> cs[k] <= n - 1 - k
  }

  /** Dropping the choice of one loop iteration leaves the choices of the
      remaining iterations, and a choice put in front of those is valid
      again when it lies within the slots still open. */
  lemma ValidChoicesCons(j: nat, rest: seq<nat>, i: nat)
    requires 1 <= i
    ensures ValidChoices([j] + rest, i + 1) <==> j <= i && ValidChoices(rest, i)
  {
    var cs := [j] + rest;
    assert cs[0] == j && cs[1..] == rest;
    if ValidChoices(cs, i + 1) {
      forall k | 0 <= k < |rest| ensures rest[k] <= i - 1 - k {
        assert rest[k] == cs[k + 1];
      }
    }
  }

  /** The loop of the shuffle, from index `i` down to 1, as a recursive
      function on the whole sequence: swap slot `i` with the next choice,
      then carry on one slot lower. */
  function ShuffleFrom<T>(a: seq<T>, rest: seq<nat>, i: int): (r: seq<T>)
    requires -1 <= i < |a| && ValidChoices(rest, i + 1)
    ensures |r| == |a|
    // the slots above `i` are already final and are never touched again
    ensures r[i + 1..] == a[i + 1..]
    decreases i + 1
  {
    if i <= 0 then a
    else
      ValidChoicesCons(rest[0], rest[1..], i);
      assert rest == [rest[0]] + rest[1..];
      var t := Swap(a, i, rest[0]);
      var r := ShuffleFrom(t, rest[1..], i - 1);
      SwapInPrefix(a, i, rest[0]);
      assert r[i + 1..] == r[i..][1..] && t[i + 1..] == t[i..][1..];
      r
  }

  /** Fisher–Yates over the whole sequence: the loop started at the last
      index. */
  function FisherYates<T>(s: seq<T>, cs: seq<nat>): (r: seq<T>)
    requires ValidChoices(cs, |s|)
    ensures |r| == |s|
    // the first iteration brings the chosen tile into the last slot for good
    ensures 2 <= |s| ==> r[|s| - 1] == s[cs[0]]
  {
    var r := ShuffleFrom(s, cs, |s| - 1);
    if 2 <= |s| then
      var i := |s| - 1;
      ValidChoicesCons(cs[0], cs[1..], i);
      assert cs == [cs[0]] + cs[1..];
      var t := Swap(s, i, cs[0]);
      assert ShuffleFrom(t, cs[1..], i - 1)[i..] == t[i..];
      r
    else r
  }

  lemma {:induction false} ShuffleFromPermutes<T>(a: seq<T>, rest: seq<nat>, i: int)
    requires -1 <= i < |a| && ValidChoices(rest, i + 1)
    ensures multiset(ShuffleFrom(a, rest, i)) == multiset(a)
    decreases i + 1
  {
    if i > 0 {
      ValidChoicesCons(rest[0], rest[1..], i);
      assert rest == [rest[0]] + rest[1..];
      SwapPermutes(a, i, rest[0]);
      ShuffleFromPermutes(Swap(a, i, rest[0]), rest[1..], i - 1);
    }
  }

  /** Whatever the choices, the shuffle only rearranges its input. */
  lemma FisherYatesPermutes<T>(s: seq<T>, cs: seq<nat>)
    requires ValidChoices(cs, |s|)
    ensures multiset(FisherYates(s, cs)) == multiset(s)
  {
    ShuffleFromPermutes(s, cs, |s| - 1);
  }

  /** The shuffle loop of the source, on a sequence: for i from the last
      index down to 1, swap positions i and j, where j is the next choice. */
  method Shuffle<T>(tiles: seq<T>, cs: seq<nat>) returns (a: seq<T>)
    requires ValidChoices(cs, |tiles|)
    ensures a == FisherYates(tiles, cs)
    ensures multiset(a) == multiset(tiles)
  {
    a := tiles;
    var rest := cs;
    var i := |tiles| - 1;
    while i > 0
      invariant -1 <= i < |a| == |tiles|
      invariant ValidChoices(rest, i + 1)
      invariant ShuffleFrom(a, rest, i) == FisherYates(tiles, cs)
    {
      var j := rest[0];
      ValidChoicesCons(j, rest[1..], i);
      assert rest == [j] + rest[1..];
      a := Swap(a, i, j);
      rest := rest[1..];
      i := i - 1;
    }
    FisherYatesPermutes(tiles, cs);
  }

  /** Position of the first occurrence of `x` in `s`. */
  function IndexOf<T(==)>(s: seq<T>, x: T): (k: nat)
    requires x in s
    ensures k < |s| && s[k] == x
  {
    if s[0] == x then 0 else 1 + IndexOf(s[1..], x)
  }

  /** Taking one more element of a prefix adds that element to its multiset. */
  lemma PrefixMultiset<T>(s: seq<T>, i: nat)
    requires i < |s|
    ensures multiset(s[..i + 1]) == multiset(s[..i]) + multiset{s[i]}
  {
    assert s[..i + 1] == s[..i] + [s[i]];
  }

  lemma MultisetCancel<T>(m: multiset<T>, n: multiset<T>, x: T)
    requires m + multiset{x} == n + multiset{x}
    ensures m == n
  {
    assert m == (m + multiset{x}) - multiset{x};
    assert n == (n + multiset{x}) - multiset{x};
  }

  /** A swap inside the prefix `..i+1` is a swap of that prefix and leaves
      the slots above `i` alone. */
  lemma SwapInPrefix<T>(a: seq<T>, i: nat, j: nat)
    requires j <= i < |a|
    ensures Swap(a, i, j)[..i + 1] == Swap(a[..i + 1], i, j)
    ensures Swap(a, i, j)[i + 1..] == a[i + 1..]
  {
  }

  /** Bringing tile `p[i]` into slot `i` leaves prefixes `..i` that are again
      rearrangements of each other, and `p` settled from slot `i` up. */
  lemma ChoiceStep<T>(a: seq<T>, p: seq<T>, i: nat, j: nat)
    requires 1 <= i < |a| == |p| && j <= i && a[j] == p[i]
    requires multiset(a[..i + 1]) == multiset(p[..i + 1]) && a[i + 1..] == p[i + 1..]
    ensures multiset(Swap(a, i, j)[..i]) == multiset(p[..i])
    ensures Swap(a, i, j)[i..] == p[i..]
  {
    var t := Swap(a, i, j);
    SwapInPrefix(a, i, j);
    SwapPermutes(a[..i + 1], i, j);
    PrefixMultiset(t, i);
    PrefixMultiset(p, i);
    MultisetCancel(multiset(t[..i]), multiset(p[..i]), p[i]);
    assert t[i..] == [t[i]] + t[i + 1..];
    assert p[i..] == [p[i]] + p[i + 1..];
  }

  /** Once nothing is left to shuffle, a sequence that agrees with `p` above
      slot `i` and has the same multiset below is `p` itself. */
  lemma Settled<T>(a: seq<T>, p: seq<T>, i: int)
    requires -1 <= i <= 0 && i < |a| == |p|
    requires multiset(a[..i + 1]) == multiset(p[..i + 1]) && a[i + 1..] == p[i + 1..]
    ensures a == p
  {
    if i == 0 {
      assert a[..1] == [a[0]] && p[..1] == [p[0]];
      assert a[0] in multiset(p[..1]);
      assert a == [a[0]] + a[1..] && p == [p[0]] + p[1..];
    } else {
      assert a == a[i + 1..] && p == p[i + 1..];
    }
  }

  /** Choices that make the loop, started at slot `i`, turn `a` into `p`: at
      each step pick, among the open slots, one holding the tile `p` has in
      the slot being closed. */
  function ChoicesFrom<T(==)>(a: seq<T>, p: seq<T>, i: int): (rest: seq<nat>)
    requires -1 <= i < |a| == |p|
    requires multiset(a[..i + 1]) == multiset(p[..i + 1]) && a[i + 1..] == p[i + 1..]
    ensures ValidChoices(rest, i + 1) && ShuffleFrom(a, rest, i) == p
    decreases i + 1
  {
    if i <= 0 then
      Settled(a, p, i);
      []
    else
      assert p[i] in multiset(a[..i + 1]) by {
        PrefixMultiset(p, i);
      }
      var j := IndexOf(a[..i + 1], p[i]);
      ChoiceStep(a, p, i, j);
      var rest := ChoicesFrom(Swap(a, i, j), p, i - 1);
      ValidChoicesCons(j, rest, i);
      assert ([j] + rest)[0] == j && ([j] + rest)[1..] == rest;
      [j] + rest
  }

  /** A choice sequence under which Fisher–Yates turns `s` into any
      rearrangement `p` of it. */
  function ChoicesFor<T(==)>(s: seq<T>, p: seq<T>): (cs: seq<nat>)
    requires multiset(s) == multiset(p)
    ensures ValidChoices(cs, |s|)
    ensures FisherYates(s, cs) == p
  {
    assert |s| == |multiset(s)| == |multiset(p)| == |p|;
    assert s[..|s|] == s && p[..|p|] == p;
    ChoicesFrom(s, p, |s| - 1)
  }

  /** Concatenation of the rows of a grid, top row first. */
  function Flatten(b: Grid): seq<Tile> {
    if |b| == 0 then [] else b[0] + Flatten(b[1..])
  }

  lemma {:induction false} FlattenIndex(b: Grid)
    requires forall row :: 0 <= row < |b| ==> |b[row]| == 8
    ensures |Flatten(b)| == 8 * |b|
    ensures forall row, col :: 0 <= row < |b| && 0 <= col < 8 ==>
      Flatten(b)[row * 8 + col] == b[row][col]
  {
    if |b| > 0 {
      FlattenIndex(b[1..]);
      forall row, col | 0 <= row < |b| && 0 <= col < 8
        ensures Flatten(b)[row * 8 + col] == b[row][col]
      {
        if row > 0 {
          assert row * 8 + col == 8 + ((row - 1) * 8 + col);
          assert b[1..][row - 1] == b[row];
        }
      }
    }
  }

  /** The grid loops of `createBoard`: cell (row, col) receives tile
      row*8+col. */
  method LayOut(tiles: seq<Tile>) returns (board: Grid)
    requires |tiles| == 64
    ensures IsGrid(board)
    ensures forall row, col :: 0 <= row < 8 && 0 <= col < 8 ==>
      board[row][col] == tiles[row * 8 + col]
  {
    board := [];
    var row := 0;
    while row < 8
      invariant 0 <= row <= 8 && |board| == row
      invariant forall r :: 0 <= r < row ==> |board[r]| == 8
      invariant forall r, c :: 0 <= r < row && 0 <= c < 8 ==> board[r][c] == tiles[r * 8 + c]
    {
      var line: seq<Tile> := [];
      var col := 0;
      while col < 8
        invariant 0 <= col <= 8 && |line| == col
        invariant forall c :: 0 <= c < col ==> line[c] == tiles[row * 8 + c]
      {
        line := line + [tiles[row * 8 + col]];
        col := col + 1;
      }
      board := board + [line];
      row := row + 1;
    }
  }

  /** Reading a row-major grid back row by row gives the tiles it was laid
      out from. */
  lemma FlattenLayOut(board: Grid, tiles: seq<Tile>)
    requires |tiles| == 64 && IsGrid(board)
    requires forall row, col :: 0 <= row < 8 && 0 <= col < 8 ==>
      board[row][col] == tiles[row * 8 + col]
    ensures Flatten(board) == tiles
  {
    FlattenIndex(board);
    forall k | 0 <= k < 64
      ensures Flatten(board)[k] == tiles[k]
    {
      var row, col := k / 8, k % 8;
      assert k == row * 8 + col && row < 8;
      assert Flatten(board)[row * 8 + col] == board[row][col];
    }
  }

  /** `createBoard`: the pool, shuffled with the given choices, laid out
      row-major. */
  method CreateBoard(cs: seq<nat>) returns (board: Grid)
    requires ValidChoices(cs, 64)
    ensures IsGrid(board)
    ensures forall row, col :: 0 <= row < 8 && 0 <= col < 8 ==>
      board[row][col] == FisherYates(Pool(), cs)[row * 8 + col]
    ensures Flatten(board) == FisherYates(Pool(), cs)
    ensures multiset(Flatten(board)) == FrequencyTable()
  {
    var tiles := Pool();
    tiles := Shuffle(tiles, cs);
    board := LayOut(tiles);
    FlattenLayOut(board, tiles);
    FisherYatesPermutes(Pool(), cs);
  }

  /** Every grid holding the frequency table is a possible board: some
      choice sequence makes `CreateBoard` lay out exactly that grid. */
  lemma EveryBoardReachable(b: Grid)
    requires IsGrid(b) && multiset(Flatten(b)) == FrequencyTable()
    ensures exists cs :: ValidChoices(cs, 64) && forall row, col :: 0 <= row < 8 && 0 <= col < 8 ==>
      b[row][col] == FisherYates(Pool(), cs)[row * 8 + col]
  {
    FlattenIndex(b);
    var cs := ChoicesFor(Pool(), Flatten(b));
    assert ValidChoices(cs, 64) && forall row, col :: 0 <= row < 8 && 0 <= col < 8 ==>
      b[row][col] == FisherYates(Pool(), cs)[row * 8 + col];
  }
}
