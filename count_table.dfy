/** The trigram count table counts[w1][w2][w3]: a map of maps of maps whose
    missing keys read as empty (Python's nested defaultdict), the increment
    that fills it, and the sliding window of width three that training runs
    over the padded tokens. */
module CountTable {
  import opened Text
  import opened Weights

  type Table = map<string, map<string, Weights>>

  /** counts[w1] with a missing key read as empty. */
  function Row(c: Table, w1: string): map<string, Weights> {
    if w1 in c then c[w1] else map[]
  }

  /** counts[w1][w2]: the observed third words of a context, with counts. */
  function Successors(c: Table, w1: string, w2: string): Weights {
    var row := Row(c, w1);
    if w2 in row then row[w2] else map[]
  }

  /** counts[w1][w2][w3] */
  function Count(c: Table, w1: string, w2: string, w3: string): nat {
    Get(Successors(c, w1, w2), w3)
  }

  /** counts[w1][w2][w3] += 1 */
  function Inc(c: Table, w1: string, w2: string, w3: string): Table {
    var row := Row(c, w1);
    var ctx := Successors(c, w1, w2);
    c[w1 := row[w2 := ctx[w3 := Get(ctx, w3) + 1]]]
  }

  /** The increment touches one context, and in it one count. */
  lemma IncSuccessors(c: Table, w1: string, w2: string, w3: string, a: string, b: string)
    ensures Successors(Inc(c, w1, w2, w3), a, b)
         == if a == w1 && b == w2 then Successors(c, a, b)[w3 := Count(c, a, b, w3) + 1]
            else Successors(c, a, b)
  {
  }

  /** counts[a][b][d] grows by one exactly for the incremented trigram. */
  lemma IncCount(c: Table, w1: string, w2: string, w3: string, a: string, b: string, d: string)
    ensures Count(Inc(c, w1, w2, w3), a, b, d)
         == Count(c, a, b, d) + (if a == w1 && b == w2 && d == w3 then 1 else 0)
  {
    IncSuccessors(c, w1, w2, w3, a, b);
  }

  /** Every present count is positive, no context or row is empty, and every
      key is a word. */
  predicate TableValid(c: Table) {
    forall a :: a in c ==> IsWord(a) && RowValid(c[a])
  }

  predicate RowValid(row: map<string, Weights>) {
    row != map[] && forall b :: b in row ==> IsWord(b) && ContextValid(row[b])
  }

  predicate ContextValid(ctx: Weights) {
    ctx != map[] && forall d :: d in ctx ==> IsWord(d) && ctx[d] > 0
  }

  lemma IncValid(c: Table, w1: string, w2: string, w3: string)
    requires TableValid(c) && IsWord(w1) && IsWord(w2) && IsWord(w3)
    ensures TableValid(Inc(c, w1, w2, w3))
  {
    var row := Row(c, w1);
    var ctx := Successors(c, w1, w2);
    var ctx' := ctx[w3 := Get(ctx, w3) + 1];
    assert ContextValid(ctx');
    var row' := row[w2 := ctx'];
    assert RowValid(row');
    assert TableValid(c[w1 := row']);
  }

  /** The number of trigram windows of `p`: len(p) - 2, or none when shorter. */
  function NumWindows(p: seq<string>): nat {
    if |p| >= 2 then |p| - 2 else 0
  }

  /** The table after the first `k` windows of `p` were counted into `c`. */
  function AddWindows(c: Table, p: seq<string>, k: nat): Table
    requires k <= NumWindows(p)
  {
    if k == 0 then c else Inc(AddWindows(c, p, k - 1), p[k - 1], p[k], p[k + 1])
  }

  /** How many of the first `k` windows of `p` are (a, b, d). */
  function WindowCount(p: seq<string>, k: nat, a: string, b: string, d: string): nat
    requires k <= NumWindows(p)
  {
    if k == 0 then 0
    else WindowCount(p, k - 1, a, b, d) + (if p[k - 1] == a && p[k] == b && p[k + 1] == d then 1 else 0)
  }

  /** How many of the first `k` windows of `p` start with the context (a, b). */
  function ContextCount(p: seq<string>, k: nat, a: string, b: string): nat
    requires k <= NumWindows(p)
  {
    if k == 0 then 0
    else ContextCount(p, k - 1, a, b) + (if p[k - 1] == a && p[k] == b then 1 else 0)
  }

  /** Every trigram's count grows by the number of windows equal to it. */
  lemma {:induction false} AddWindowsCount(c: Table, p: seq<string>, k: nat, a: string, b: string, d: string)
    requires k <= NumWindows(p)
    ensures Count(AddWindows(c, p, k), a, b, d) == Count(c, a, b, d) + WindowCount(p, k, a, b, d)
  {
    if k > 0 {
      AddWindowsCount(c, p, k - 1, a, b, d);
      IncCount(AddWindows(c, p, k - 1), p[k - 1], p[k], p[k + 1], a, b, d);
    }
  }

  /** Count conservation: a context's total grows by the number of windows
      that start with it. */
  lemma {:induction false} AddWindowsContextMass(c: Table, p: seq<string>, k: nat, a: string, b: string)
    requires k <= NumWindows(p)
    ensures Mass(Successors(AddWindows(c, p, k), a, b)) == Mass(Successors(c, a, b)) + ContextCount(p, k, a, b)
  {
    if k > 0 {
      var prev := AddWindows(c, p, k - 1);
      AddWindowsContextMass(c, p, k - 1, a, b);
      IncSuccessors(prev, p[k - 1], p[k], p[k + 1], a, b);
      if p[k - 1] == a && p[k] == b {
        var s := Successors(prev, a, b);
        MassUpdate(s, p[k + 1], Get(s, p[k + 1]) + 1);
      }
    }
  }

  /** Counting keeps the table valid when every token is a word. */
  lemma {:induction false} AddWindowsValid(c: Table, p: seq<string>, k: nat)
    requires k <= NumWindows(p)
    requires TableValid(c) && forall i :: 0 <= i < |p| ==> IsWord(p[i])
    ensures TableValid(AddWindows(c, p, k))
  {
    if k > 0 {
      AddWindowsValid(c, p, k - 1);
      IncValid(AddWindows(c, p, k - 1), p[k - 1], p[k], p[k + 1]);
    }
  }

  /** The total of the whole table. */
  ghost function TableMass(c: Table): nat {
    Mass(RowTotals(c))
  }

  ghost function RowTotals(c: Table): Weights {
    map a | a in c :: RowMass(c[a])
  }

  /** The total of one row counts[w1]. */
  ghost function RowMass(row: map<string, Weights>): nat {
    Mass(ContextTotals(row))
  }

  ghost function ContextTotals(row: map<string, Weights>): Weights {
    map b | b in row :: Mass(row[b])
  }

  /** Replacing one context changes the row total by the difference of the
      two contexts' totals. */
  lemma RowMassUpdate(row: map<string, Weights>, b: string, ctx': Weights)
    ensures RowMass(row[b := ctx']) + Mass(if b in row then row[b] else map[])
         == RowMass(row) + Mass(ctx')
  {
    var before := ContextTotals(row);
    assert ContextTotals(row[b := ctx']) == before[b := Mass(ctx')];
    MassUpdate(before, b, Mass(ctx'));
    if b !in row {
      assert Mass(map[]) == 0;
    }
  }

  /** Replacing one row changes the table total by the difference of the
      two rows' totals. */
  lemma TableMassUpdate(c: Table, a: string, row': map<string, Weights>)
    ensures TableMass(c[a := row']) + RowMass(Row(c, a)) == TableMass(c) + RowMass(row')
  {
    var before := RowTotals(c);
    var after := RowTotals(c[a := row']);
    assert after.Keys == before.Keys + {a};
    forall x | x in after ensures after[x] == before[a := RowMass(row')][x] {
      if x != a { assert c[a := row'][x] == c[x]; }
    }
    assert after == before[a := RowMass(row')];
    MassUpdate(before, a, RowMass(row'));
    assert Get(before, a) == RowMass(Row(c, a)) by {
      if a !in c {
        assert ContextTotals(map[]) == map[];
        assert Mass(map[]) == 0;
      }
    }
  }

  /** One increment adds one to the table's total. */
  lemma IncMass(c: Table, w1: string, w2: string, w3: string)
    ensures TableMass(Inc(c, w1, w2, w3)) == TableMass(c) + 1
  {
    var row := Row(c, w1);
    var ctx := Successors(c, w1, w2);
    var ctx' := ctx[w3 := Get(ctx, w3) + 1];
    MassUpdate(ctx, w3, Get(ctx, w3) + 1);
    var row' := row[w2 := ctx'];
    RowMassUpdate(row, w2, ctx');
    assert RowMass(row') == RowMass(row) + 1;
    TableMassUpdate(c, w1, row');
    assert Inc(c, w1, w2, w3) == c[w1 := row'];
  }

  /** Counting k windows adds exactly k to the table's total. */
  lemma {:induction false} AddWindowsMass(c: Table, p: seq<string>, k: nat)
    requires k <= NumWindows(p)
    ensures TableMass(AddWindows(c, p, k)) == TableMass(c) + k
  {
    if k > 0 {
      AddWindowsMass(c, p, k - 1);
      IncMass(AddWindows(c, p, k - 1), p[k - 1], p[k], p[k + 1]);
    }
  }

  /** The next-word distribution of a context as integer weights: the
      observed third words with their counts, so that word w has probability
      d[w] / Mass(d). An unseen context, or one whose counts add up to zero,
      gives the empty distribution. */
  function NextWordDistribution(c: Table, w1: string, w2: string): (d: Weights)
    ensures d == map[] || d == Successors(c, w1, w2)
    ensures d == map[] <==> Mass(Successors(c, w1, w2)) == 0
  {
    if w1 !in c || w2 !in c[w1] then
      assert Mass(map[]) == 0;
      map[]
    else
      var ctx := c[w1][w2];
      MassZero(ctx);
      if forall w | w in ctx :: ctx[w] == 0 then map[] else ctx
  }
}
