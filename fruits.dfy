/** Fruits: the type table, random batch generation (with the random draws
    passed in), and the per-frame collection loop that removes every fruit on
    the player's cell and adds up their values. */
module Fruits {
  import opened Grid

  /** The keys of the FRUITS table. */
  datatype FruitType = Apple | Mango | Blueberry

  /** FRUITS[type]["value"]. */
  function Value(kind: FruitType): (v: nat)
    ensures v == 10 || v == 15 || v == 20
  {
    match kind
    case Apple => 10
    case Mango => 20
    case Blueberry => 15
  }

  /** A fruit on the field. Its value is fixed by its type when it is created,
      so the model derives it from `kind` instead of storing a copy. */
  datatype Fruit = Fruit(pos: Cell, kind: FruitType) {
    function value(): nat {
      Value(kind)
    }
  }

  /** One iteration's random choices in generate_fruits: `random.randint(0,
      ROWS - 1)`, `random.randint(0, COLS - 1)` and `random.choice` of a type. */
  datatype Draw = Draw(row: int, col: int, kind: FruitType)

  /** The range randint promises for a draw. */
  predicate ValidDraw(d: Draw) {
    0 <= d.row <= ROWS - 1 && 0 <= d.col <= COLS - 1
  }

  /** The batch generate_fruits builds from the given draws, in draw order. */
  function Spawn(draws: seq<Draw>): (fruits: seq<Fruit>)
  {
    seq(|draws|, i requires 0 <= i < |draws| => Fruit(Cell(draws[i].row, draws[i].col), draws[i].kind))
  }

  /** generate_fruits(n) with its random choices supplied: exactly n fruits,
      each placed and typed by its own draw, each on the grid and worth 10, 15
      or 20 points according to its type. */
  method GenerateFruits(n: nat, draws: seq<Draw>) returns (fruits: seq<Fruit>)
    requires |draws| == n && forall d :: d in draws ==> ValidDraw(d)
    ensures |fruits| == n && fruits == Spawn(draws)
    ensures forall i :: 0 <= i < n ==>
      fruits[i].pos == Cell(draws[i].row, draws[i].col) && fruits[i].kind == draws[i].kind
    ensures forall f :: f in fruits ==> InBounds(f.pos) && f.value() in {10, 15, 20}
  {
    fruits := [];
    for k := 0 to n
      invariant fruits == Spawn(draws[..k])
      invariant forall f :: f in fruits ==> InBounds(f.pos)
    {
      assert draws[k] in draws;
      var d := draws[k];
      fruits := fruits + [Fruit(Cell(d.row, d.col), d.kind)];
    }
    assert draws[..n] == draws;
  }

  /** The fruits lying on `at`, in list order. */
  function Eaten(fruits: seq<Fruit>, at: Cell): seq<Fruit> {
    if fruits == [] then []
    else
      var last := fruits[|fruits| - 1];
      Eaten(fruits[..|fruits| - 1], at) + (if last.pos == at then [last] else [])
  }

  /** The fruits not lying on `at`, in list order. */
  function Uneaten(fruits: seq<Fruit>, at: Cell): seq<Fruit> {
    if fruits == [] then []
    else
      var last := fruits[|fruits| - 1];
      Uneaten(fruits[..|fruits| - 1], at) + (if last.pos == at then [] else [last])
  }

  /** Exactly the fruits on `at` are taken and exactly the others are left. */
  lemma {:induction false} CollectMembership(fruits: seq<Fruit>, at: Cell)
    ensures forall f :: f in Eaten(fruits, at) <==> f in fruits && f.pos == at
    ensures forall f :: f in Uneaten(fruits, at) <==> f in fruits && f.pos != at
  {
    if fruits != [] {
      var init, last := fruits[..|fruits| - 1], fruits[|fruits| - 1];
      assert fruits == init + [last];
      CollectMembership(init, at);
    }
  }

  /** Sum of the values of a list of fruits. */
  function TotalValue(fruits: seq<Fruit>): nat {
    if fruits == [] then 0
    else TotalValue(fruits[..|fruits| - 1]) + fruits[|fruits| - 1].value()
  }

  /** How the two filters extend by one fruit at the end. */
  lemma Snoc(s: seq<Fruit>, x: Fruit, at: Cell)
    ensures x.pos == at ==> Eaten(s + [x], at) == Eaten(s, at) + [x] && Uneaten(s + [x], at) == Uneaten(s, at)
    ensures x.pos != at ==> Eaten(s + [x], at) == Eaten(s, at) && Uneaten(s + [x], at) == Uneaten(s, at) + [x]
  {
    assert (s + [x])[..|s|] == s;
    assert Eaten(s, at) + [] == Eaten(s, at);
    assert Uneaten(s, at) + [] == Uneaten(s, at);
  }

  /** The total grows by the value of a fruit added at the end. */
  lemma TotalValueAppend(s: seq<Fruit>, x: Fruit)
    ensures TotalValue(s + [x]) == TotalValue(s) + x.value()
  {
    assert (s + [x])[..|s|] == s;
  }

  /** Python's `list.remove(x)`: drop the first element equal to x. */
  function RemoveFirst(s: seq<Fruit>, x: Fruit): (r: seq<Fruit>)
    requires x in s
    ensures |r| == |s| - 1
  {
    if s[0] == x then s[1..] else [s[0]] + RemoveFirst(s[1..], x)
  }

  lemma {:induction false} RemoveFirstAfter(a: seq<Fruit>, x: Fruit, b: seq<Fruit>)
    requires x !in a
    ensures x in a + [x] + b && RemoveFirst(a + [x] + b, x) == a + b
  {
    if a != [] {
      assert (a + [x] + b)[1..] == a[1..] + [x] + b;
      RemoveFirstAfter(a[1..], x, b);
      assert [a[0]] + (a[1..] + b) == a + b;
    } else {
      assert a + [x] + b == [x] + b;
    }
  }

  /** Cutting a list around position i. */
  lemma SplitAt(s: seq<Fruit>, i: nat)
    requires i < |s|
    ensures s[..i + 1] == s[..i] + [s[i]] && s[i..] == [s[i]] + s[i + 1..]
  {
  }

  /** One iteration of the collection loop, on a list whose first part
      `done` has been filtered already: a fruit on `at` is removed (it is the
      first copy left, since the filtered part holds none) and its value is
      added; any other fruit stays where it is. */
  lemma CollectStep(done: seq<Fruit>, fruit: Fruit, todo: seq<Fruit>, at: Cell)
    ensures var before := Uneaten(done, at) + [fruit] + todo;
      fruit.pos == at ==>
        && fruit in before && RemoveFirst(before, fruit) == Uneaten(done + [fruit], at) + todo
        && TotalValue(Eaten(done + [fruit], at)) == TotalValue(Eaten(done, at)) + fruit.value()
    ensures fruit.pos != at ==>
      && Uneaten(done, at) + [fruit] + todo == Uneaten(done + [fruit], at) + todo
      && Eaten(done + [fruit], at) == Eaten(done, at)
  {
    Snoc(done, fruit, at);
    if fruit.pos == at {
      TotalValueAppend(Eaten(done, at), fruit);
      CollectMembership(done, at);
      RemoveFirstAfter(Uneaten(done, at), fruit, todo);
    }
  }

  /** The collection loop `for fruit in fruits[:]: if fruit is on the player's
      cell: score += fruit.value; fruits.remove(fruit)`. The remaining list is
      the input without the fruits on `at`, order kept, and the points gained
      are exactly the values of the fruits removed. */
  method CollectAt(fruits: seq<Fruit>, at: Cell) returns (remaining: seq<Fruit>, gained: nat)
    ensures remaining == Uneaten(fruits, at)
    ensures gained == TotalValue(Eaten(fruits, at))
  {
    remaining, gained := fruits, 0;
    var snapshot := fruits;
    for i := 0 to |snapshot|
      invariant remaining == Uneaten(snapshot[..i], at) + snapshot[i..]
      invariant gained == TotalValue(Eaten(snapshot[..i], at))
    {
      var fruit := snapshot[i];
      ghost var done, todo := snapshot[..i], snapshot[i + 1..];
      SplitAt(snapshot, i);
      assert remaining == Uneaten(done, at) + [fruit] + todo;
      CollectStep(done, fruit, todo, at);
      if fruit.pos == at {
        gained := gained + fruit.value();
        remaining := RemoveFirst(remaining, fruit);
      }
    }
    assert snapshot[..|snapshot|] == snapshot;
  }

  /** Collection splits the list: the fruits taken and the fruits left are
      together exactly the fruits before. */
  lemma {:induction false} CollectSplits(fruits: seq<Fruit>, at: Cell)
    ensures multiset(Eaten(fruits, at)) + multiset(Uneaten(fruits, at)) == multiset(fruits)
  {
    if fruits != [] {
      var init, last := fruits[..|fruits| - 1], fruits[|fruits| - 1];
      assert fruits == init + [last];
      CollectSplits(init, at);
      Snoc(init, last, at);
    }
  }

  /** No points are lost or made up: the values taken and the values left
      add up to the value of the list before. */
  lemma {:induction false} CollectKeepsTotal(fruits: seq<Fruit>, at: Cell)
    ensures TotalValue(Eaten(fruits, at)) + TotalValue(Uneaten(fruits, at)) == TotalValue(fruits)
  {
    if fruits != [] {
      var init, last := fruits[..|fruits| - 1], fruits[|fruits| - 1];
      assert fruits == init + [last];
      CollectKeepsTotal(init, at);
      Snoc(init, last, at);
      TotalValueAppend(init, last);
      if last.pos == at {
        TotalValueAppend(Eaten(init, at), last);
      } else {
        TotalValueAppend(Uneaten(init, at), last);
      }
    }
  }

  /** The fruits left keep their relative order: filtering a concatenation is
      the concatenation of the filtered parts. */
  lemma {:induction false} UneatenKeepsOrder(a: seq<Fruit>, b: seq<Fruit>, at: Cell)
    ensures Uneaten(a + b, at) == Uneaten(a, at) + Uneaten(b, at)
    decreases |b|
  {
    if b == [] {
      assert a + b == a;
    } else {
      var init, last := b[..|b| - 1], b[|b| - 1];
      assert a + b == (a + init) + [last];
      assert (a + b)[..|a + b| - 1] == a + init;
      UneatenKeepsOrder(a, init, at);
    }
  }

  /** Collecting twice on the same cell gains nothing the second time. */
  lemma CollectIdempotent(fruits: seq<Fruit>, at: Cell)
    ensures Eaten(Uneaten(fruits, at), at) == []
    ensures Uneaten(Uneaten(fruits, at), at) == Uneaten(fruits, at)
  {
    var u := Uneaten(fruits, at);
    CollectMembership(fruits, at);
    UneatenUnchanged(u, at);
  }

  /** A list with no fruit on `at` is left as it is. */
  lemma {:induction false} UneatenUnchanged(fruits: seq<Fruit>, at: Cell)
    requires forall f :: f in fruits ==> f.pos != at
    ensures Uneaten(fruits, at) == fruits && Eaten(fruits, at) == []
  {
    if fruits != [] {
      var init, last := fruits[..|fruits| - 1], fruits[|fruits| - 1];
      assert fruits == init + [last];
      assert last in fruits;
      assert forall f :: f in init ==> f in fruits;
      UneatenUnchanged(init, at);
    }
  }
}
