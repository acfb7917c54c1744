/**
 * A bounded stack of Java `int`s represented by a fixed-size array
 * (package pilesimple, class PileInt).
 *
 * The live elements are `contenu[0..nbElements)`, the top at index
 * `nbElements - 1`; the rest of the buffer is slack. `equals`, `hashCode`
 * and `toString` are all functions of the same three things: the count, the
 * capacity and the live elements in order.
 */
module PileSimple {
  import opened JavaInt
  import opened Decimal

  // ---------------------------------------------------------------------
  // hashCode, as a function of (count, capacity, live elements)
  // ---------------------------------------------------------------------

  /** One turn of the hashCode loop, `code = (31 * code) + x` in `int` arithmetic. */
  function HashStep(code: int32, x: int32): int32
  {
    Wrap(31 * (code as int) + x as int)
  }

  /** The hashCode loop run over `items` from the accumulator `code`. */
  function HashFold(code: int32, items: seq<int32>): int32
    decreases |items|
  {
    if items == [] then code else HashFold(HashStep(code, items[0]), items[1..])
  }

  /** The value of hashCode for a stack with this count, capacity and live elements. */
  function HashOf(count: int, capacity: int, items: seq<int32>): int32
  {
    HashFold(Wrap(count * 31 + capacity), items)
  }

  /**
   * The same accumulation over unbounded integers; PolyFoldClosedForm shows
   * it is acc * 31^n + x0 * 31^(n-1) + ... + x(n-1) for `items` = x0 .. x(n-1).
   */
  function PolyFold(acc: int, items: seq<int32>): int
    decreases |items|
  {
    if items == [] then acc else PolyFold(31 * acc + items[0] as int, items[1..])
  }

  /** 31 to the power `k`. */
  function Pow31(k: nat): (r: int)
    ensures r > 0
  {
    if k == 0 then 1 else 31 * Pow31(k - 1)
  }

  /** x0 * 31^(n-1) + x1 * 31^(n-2) + ... + x(n-1) for `items` = x0 .. x(n-1). */
  function WeightedSum(items: seq<int32>): int
    decreases |items|
  {
    if items == [] then 0 else items[0] as int * Pow31(|items| - 1) + WeightedSum(items[1..])
  }

  /** The unbounded accumulation in closed form: acc * 31^n plus the weighted sum of the elements. */
  lemma {:induction false} PolyFoldClosedForm(acc: int, items: seq<int32>)
    ensures PolyFold(acc, items) == acc * Pow31(|items|) + WeightedSum(items)
    decreases |items|
  {
    if items != [] {
      var x, n := items[0] as int, |items|;
      var p := Pow31(n - 1);
      PolyFoldClosedForm(31 * acc + x, items[1..]);
      assert (31 * acc + x) * p == acc * (31 * p) + x * p;
    }
  }

  /** Overflowing at every step of the loop is the same as reducing the exact polynomial once. */
  lemma {:induction false} HashFoldWraps(acc: int, items: seq<int32>)
    ensures HashFold(Wrap(acc), items) == Wrap(PolyFold(acc, items))
    decreases |items|
  {
    if items != [] {
      WrapMulAdd(acc, items[0] as int);
      HashFoldWraps(31 * acc + items[0] as int, items[1..]);
    }
  }

  /** hashCode is the polynomial count*31^(n+1) + capacity*31^n + sum of x_i*31^(n-1-i), reduced to an `int`. */
  lemma HashOfIsPolynomial(count: int, capacity: int, items: seq<int32>)
    ensures HashOf(count, capacity, items) == Wrap(PolyFold(count * 31 + capacity, items))
    ensures HashOf(count, capacity, items) ==
      Wrap(count * Pow31(|items| + 1) + capacity * Pow31(|items|) + WeightedSum(items))
  {
    HashFoldWraps(count * 31 + capacity, items);
    PolyFoldClosedForm(count * 31 + capacity, items);
    var p := Pow31(|items|);
    assert (count * 31 + capacity) * p == count * (31 * p) + capacity * p;
  }

  // ---------------------------------------------------------------------
  // toString, as a function of (count, capacity, live elements)
  // ---------------------------------------------------------------------

  /** Each live element in order, each one followed by a space. */
  function RenderItems(items: seq<int32>): (s: string)
    ensures s == [] <==> items == []
  {
    if items == [] then "" else IntToDecimal(items[0] as int) + " " + RenderItems(items[1..])
  }

  /** The text of toString: "PileInt(" count "/" capacity "):[" elements "]". */
  function Render(count: int, capacity: int, items: seq<int32>): string
  {
    "PileInt(" + IntToDecimal(count) + "/" + IntToDecimal(capacity) + "):[" + RenderItems(items) + "]"
  }

  /** Rendering one more element appends its text and a space: the toString loop body. */
  lemma {:induction false} RenderItemsSnoc(items: seq<int32>, x: int32)
    ensures RenderItems(items + [x]) == RenderItems(items) + IntToDecimal(x as int) + " "
    decreases |items|
  {
    if items == [] {
      assert items + [x] == [x];
    } else {
      var head, tx := IntToDecimal(items[0] as int) + " ", IntToDecimal(x as int) + " ";
      var rest := RenderItems(items[1..]);
      calc {
        RenderItems(items + [x]);
        { assert (items + [x])[0] == items[0] && (items + [x])[1..] == items[1..] + [x]; }
        head + RenderItems(items[1..] + [x]);
        { RenderItemsSnoc(items[1..], x); Assoc(rest, IntToDecimal(x as int), " "); }
        head + (rest + tx);
        { Assoc(head, rest, tx); }
        head + rest + tx;
        { Assoc(RenderItems(items), IntToDecimal(x as int), " "); }
        RenderItems(items) + IntToDecimal(x as int) + " ";
      }
    }
  }

  /** The longest prefix of `s` that does not contain `d`. */
  function TakeUntil(s: string, d: char): (t: string)
    ensures d !in t
  {
    if s == [] || s[0] == d then [] else [s[0]] + TakeUntil(s[1..], d)
  }

  /** A field followed by a separator it does not contain is recovered by TakeUntil. */
  lemma {:induction false} TakeUntilField(t: string, d: char, rest: string)
    requires d !in t
    ensures TakeUntil(t + [d] + rest, d) == t
    decreases |t|
  {
    if t != [] {
      assert (t + [d] + rest)[1..] == t[1..] + [d] + rest;
      TakeUntilField(t[1..], d, rest);
    }
  }

  /** A text made of a field, a separator the field lacks, and a rest splits in one way only. */
  lemma SplitUnique(t1: string, r1: string, t2: string, r2: string, d: char)
    requires d !in t1 && d !in t2
    requires t1 + [d] + r1 == t2 + [d] + r2
    ensures t1 == t2 && r1 == r2
  {
    TakeUntilField(t1, d, r1);
    TakeUntilField(t2, d, r2);
    assert r1 == (t1 + [d] + r1)[|t1| + 1..];
    assert r2 == (t2 + [d] + r2)[|t2| + 1..];
  }

  /** The rendered elements determine the elements. */
  lemma {:induction false} RenderItemsInjective(xs: seq<int32>, ys: seq<int32>)
    requires RenderItems(xs) == RenderItems(ys)
    ensures xs == ys
    decreases |xs|
  {
    if xs != [] {
      var tx, ty := IntToDecimal(xs[0] as int), IntToDecimal(ys[0] as int);
      IntToDecimalAvoids(xs[0] as int, ' ');
      IntToDecimalAvoids(ys[0] as int, ' ');
      assert RenderItems(xs) == tx + [' '] + RenderItems(xs[1..]);
      assert RenderItems(ys) == ty + [' '] + RenderItems(ys[1..]);
      SplitUnique(tx, RenderItems(xs[1..]), ty, RenderItems(ys[1..]), ' ');
      IntToDecimalInjective(xs[0] as int, ys[0] as int);
      RenderItemsInjective(xs[1..], ys[1..]);
      assert xs == [xs[0]] + xs[1..];
      assert ys == [ys[0]] + ys[1..];
    }
  }

  /** What follows "PileInt(" in the text: count, '/', capacity, ')', then the elements part. */
  lemma RenderFields(c: int, m: int, xs: seq<int32>)
    ensures Render(c, m, xs)[8..] ==
      IntToDecimal(c) + ['/'] + (IntToDecimal(m) + [')'] + (":[" + RenderItems(xs) + "]"))
  {
    TextFields(IntToDecimal(c), IntToDecimal(m), RenderItems(xs));
  }

  /** Regrouping of the toString text around its separators. */
  lemma TextFields(dc: string, dm: string, r: string)
    ensures ("PileInt(" + dc + "/" + dm + "):[" + r + "]")[8..] == dc + ['/'] + (dm + [')'] + (":[" + r + "]"))
  {
    var y := "PileInt(" + dc + "/" + dm;
    calc {
      y + "):[" + r + "]";
      { Assoc(y + "):[", r, "]"); }
      y + "):[" + (r + "]");
      { Assoc(y, "):[", r + "]"); }
      y + ("):[" + (r + "]"));
      { Assoc(":[", r, "]"); assert "):[" + (r + "]") == [')'] + (":[" + r + "]"); }
      y + ([')'] + (":[" + r + "]"));
      { Assoc(y, [')'], ":[" + r + "]"); }
      y + [')'] + (":[" + r + "]");
    }
    var z := dc + ['/'] + dm;
    assert y == "PileInt(" + z;
    Assoc("PileInt(", z, [')']);
    Assoc("PileInt(", z + [')'], ":[" + r + "]");
    Assoc(dc + ['/'], dm, [')']);
    Assoc(dc + ['/'], dm + [')'], ":[" + r + "]");
  }

  /** Concatenation is associative. */
  lemma Assoc(a: string, b: string, c: string)
    ensures a + b + c == a + (b + c)
  {
  }

  /** The elements part of the text determines the elements. */
  lemma ElementsPartInjective(xs: seq<int32>, ys: seq<int32>)
    requires ":[" + RenderItems(xs) + "]" == ":[" + RenderItems(ys) + "]"
    ensures xs == ys
  {
    var t1, t2 := ":[" + RenderItems(xs) + "]", ":[" + RenderItems(ys) + "]";
    assert RenderItems(xs) == t1[2..|t1| - 1];
    assert RenderItems(ys) == t2[2..|t2| - 1];
    RenderItemsInjective(xs, ys);
  }

  /** The text of toString determines count, capacity and live elements. */
  lemma RenderInjective(c1: int, m1: int, xs: seq<int32>, c2: int, m2: int, ys: seq<int32>)
    requires Render(c1, m1, xs) == Render(c2, m2, ys)
    ensures c1 == c2 && m1 == m2 && xs == ys
  {
    var dm1, dm2 := IntToDecimal(m1), IntToDecimal(m2);
    var tail1, tail2 := ":[" + RenderItems(xs) + "]", ":[" + RenderItems(ys) + "]";
    RenderFields(c1, m1, xs);
    RenderFields(c2, m2, ys);
    IntToDecimalAvoids(c1, '/');
    IntToDecimalAvoids(c2, '/');
    SplitUnique(IntToDecimal(c1), dm1 + [')'] + tail1, IntToDecimal(c2), dm2 + [')'] + tail2, '/');
    IntToDecimalInjective(c1, c2);
    IntToDecimalAvoids(m1, ')');
    IntToDecimalAvoids(m2, ')');
    SplitUnique(dm1, tail1, dm2, tail2, ')');
    IntToDecimalInjective(m1, m2);
    ElementsPartInjective(xs, ys);
  }

  // ---------------------------------------------------------------------
  // The stack
  // ---------------------------------------------------------------------

  class PileInt {
    var contenu: array<int32>
    var nbMaxElements: int
    var nbElements: int

    /** The class invariant `0 <= getNbElements() <= getNbMaxElements()`, over a buffer of the capacity. */
    ghost predicate Valid()
      reads this
    {
      0 <= nbElements <= nbMaxElements <= INT_MAX && contenu.Length == nbMaxElements
    }

    /** The live elements, bottom first. */
    ghost function Elements(): seq<int32>
      reads this, contenu
      requires Valid()
    {
      contenu[..nbElements]
    }

    /** Same count, same capacity and the same live elements: what `equals` decides. */
    ghost predicate SameAs(p: PileInt)
      reads this, contenu, p, p.contenu
      requires Valid() && p.Valid()
    {
      nbElements == p.nbElements && nbMaxElements == p.nbMaxElements && Elements() == p.Elements()
    }

    /** An empty stack with room for `nbMax` elements. */
    constructor (nbMax: int)
      requires 0 <= nbMax < INT_MAX
      ensures Valid() && fresh(contenu)
      ensures EstVide() && GetNbMaxElements() == nbMax && GetNbElements() == 0
      ensures Elements() == []
      ensures EstPleine() <==> nbMax == 0
    {
      contenu := new int32[nbMax];
      nbMaxElements := nbMax;
      nbElements := 0;
    }

    /**
     * A stack holding the first `n` elements of a copy of `elements`, with
     * the capacity of `elements`. The buffer is fresh: later writes to
     * `elements` do not reach the stack.
     */
    constructor FromArray(elements: array<int32>, n: int)
      requires 0 <= n <= elements.Length <= INT_MAX
      ensures Valid() && fresh(contenu)
      ensures GetNbMaxElements() == elements.Length && GetNbElements() == n
      ensures contenu[..] == elements[..]
      ensures Elements() == elements[..n]
      ensures n > 0 ==> GetSommet() == elements[n - 1]
      ensures n == elements.Length ==> EstPleine()
    {
      contenu := new int32[elements.Length](i reads elements requires 0 <= i < elements.Length => elements[i]);
      nbMaxElements := elements.Length;
      nbElements := n;
    }

    /** The capacity: the length of the buffer, never less than the count. */
    function GetNbMaxElements(): (r: int)
      reads this, contenu
      requires Valid()
      ensures r == contenu.Length && |Elements()| <= r
    {
      nbMaxElements
    }

    /** The number of live elements. */
    function GetNbElements(): (r: int)
      reads this, contenu
      requires Valid()
      ensures r == |Elements()| && 0 <= r <= GetNbMaxElements()
    {
      nbElements
    }

    /** The top of the stack: the most recently pushed live element. */
    function GetSommet(): (r: int32)
      reads this, contenu
      requires Valid() && !EstVide()
      ensures Elements() != [] && r == Elements()[|Elements()| - 1]
    {
      contenu[nbElements - 1]
    }

    /** Push `e`; requires a free slot. */
    method Empiler(e: int32)
      requires Valid() && !EstPleine()
      modifies this`nbElements, contenu
      ensures Valid() && contenu == old(contenu) && nbMaxElements == old(nbMaxElements)
      ensures !EstVide() && GetSommet() == e
      ensures GetNbElements() == old(GetNbElements()) + 1
      ensures Elements() == old(Elements()) + [e]
    {
      contenu[nbElements] := e;
      nbElements := nbElements + 1;
    }

    /** Pop the top; requires a live element. The vacated slot keeps its stale value. */
    method Depiler()
      requires Valid() && !EstVide()
      modifies this`nbElements
      ensures Valid() && contenu == old(contenu) && nbMaxElements == old(nbMaxElements)
      ensures !EstPleine()
      ensures GetNbElements() == old(GetNbElements()) - 1
      ensures old(Elements()) == Elements() + [old(GetSommet())]
    {
      nbElements := nbElements - 1;
    }

    /** empiler exactly as written in the source: the count advances by 2. */
    method EmpilerAsWritten(e: int32)
      requires Valid() && !EstPleine()
      modifies this`nbElements, contenu
      ensures contenu == old(contenu) && nbMaxElements == old(nbMaxElements)
      ensures contenu[old(nbElements)] == e
      ensures nbElements == old(nbElements) + 2
    {
      contenu[nbElements] := e;
      nbElements := nbElements + 2;
    }

    /** depiler exactly as written in the source: the count goes back by 2. */
    method DepilerAsWritten()
      requires Valid() && !EstVide()
      modifies this`nbElements
      ensures contenu == old(contenu) && nbMaxElements == old(nbMaxElements)
      ensures nbElements == old(nbElements) - 2
    {
      nbElements := nbElements - 2;
    }

    /** Full: the count has reached the capacity. */
    function EstPleine(): (r: bool)
      reads this, contenu
      requires Valid()
      ensures r <==> GetNbElements() == GetNbMaxElements()
      ensures r <==> |Elements()| == contenu.Length
    {
      nbElements == nbMaxElements
    }

    /** Empty: no live element. */
    function EstVide(): (r: bool)
      reads this, contenu
      requires Valid()
      ensures r <==> GetNbElements() == 0
      ensures r <==> Elements() == []
    {
      nbElements == 0
    }

    /**
     * equals: `o` is a stack (not null) with the same count, the same
     * capacity and the same live elements in the same order. Equal stacks
     * have the same top, the same hashCode and the same toString.
     */
    method Equals(o: PileInt?) returns (r: bool)
      requires Valid() && (o != null ==> o.Valid())
      ensures r <==> o != null && SameAs(o)
      ensures o == this ==> r
      ensures r && !EstVide() ==> GetSommet() == o.GetSommet()
      ensures r ==> HashOf(nbElements, nbMaxElements, Elements()) == HashOf(o.nbElements, o.nbMaxElements, o.Elements())
      ensures r ==> Render(nbElements, nbMaxElements, Elements()) == Render(o.nbElements, o.nbMaxElements, o.Elements())
    {
      if o == null {
        return false;
      }
      if GetNbElements() != o.GetNbElements() {
        return false;
      }
      if GetNbMaxElements() != o.GetNbMaxElements() {
        return false;
      }
      var i := 0;
      while i < GetNbElements()
        invariant 0 <= i <= nbElements
        invariant contenu[..i] == o.contenu[..i]
      {
        if contenu[i] != o.contenu[i] {
          assert Elements()[i] != o.Elements()[i];
          return false;
        }
        assert contenu[..i + 1] == contenu[..i] + [contenu[i]];
        assert o.contenu[..i + 1] == o.contenu[..i] + [o.contenu[i]];
        i := i + 1;
      }
      return true;
    }

    /** clone: a distinct stack, with a buffer of its own, equal to this one. */
    method Clone() returns (p: PileInt)
      requires Valid()
      ensures fresh(p) && fresh(p.contenu)
      ensures p.Valid() && SameAs(p)
      ensures p.contenu[..] == contenu[..]
    {
      p := new PileInt.FromArray(contenu, nbElements);
    }

    /** hashCode: the polynomial hash of count, capacity and live elements, in `int` arithmetic. */
    method HashCode() returns (code: int32)
      requires Valid()
      ensures code == HashOf(nbElements, nbMaxElements, Elements())
      ensures code == Wrap(PolyFold(nbElements * 31 + nbMaxElements, Elements()))
      ensures code == Wrap(nbElements * Pow31(nbElements + 1) + nbMaxElements * Pow31(nbElements) + WeightedSum(Elements()))
    {
      code := Wrap(GetNbElements() * 31 + GetNbMaxElements());
      var i := 0;
      while i < GetNbElements()
        invariant 0 <= i <= nbElements
        invariant HashFold(code, contenu[i..nbElements]) == HashOf(nbElements, nbMaxElements, Elements())
      {
        assert contenu[i..nbElements][1..] == contenu[i + 1..nbElements];
        code := HashStep(code, contenu[i]);
        i := i + 1;
      }
      HashOfIsPolynomial(nbElements, nbMaxElements, Elements());
    }

    /** toString: "PileInt(" count "/" capacity "):[" then each live element and a space, then "]". */
    method ToString() returns (s: string)
      requires Valid()
      ensures s == Render(nbElements, nbMaxElements, Elements())
    {
      var head := "PileInt(" + IntToDecimal(GetNbElements()) + "/" + IntToDecimal(GetNbMaxElements()) + "):[";
      var str := head;
      var i := 0;
      while i < GetNbElements()
        invariant 0 <= i <= nbElements
        invariant str == head + RenderItems(contenu[..i])
      {
        var t := IntToDecimal(contenu[i] as int);
        ghost var done := RenderItems(contenu[..i]);
        assert contenu[..i + 1] == contenu[..i] + [contenu[i]];
        RenderItemsSnoc(contenu[..i], contenu[i]);
        Assoc(head, done, t);
        Assoc(head, done + t, " ");
        str := str + t + " ";
        i := i + 1;
      }
      assert contenu[..i] == Elements();
      s := str + "]";
    }
  }

  // ---------------------------------------------------------------------
  // Properties relating several operations
  // ---------------------------------------------------------------------

  /** equals is reflexive, symmetric and transitive. */
  lemma SameAsIsEquivalence(a: PileInt, b: PileInt, c: PileInt)
    requires a.Valid() && b.Valid() && c.Valid()
    ensures a.SameAs(a)
    ensures a.SameAs(b) ==> b.SameAs(a)
    ensures a.SameAs(b) && b.SameAs(c) ==> a.SameAs(c)
  {
  }

  /** Two stacks are equal exactly when their toString texts are equal. */
  lemma SameAsIffSameText(a: PileInt, b: PileInt)
    requires a.Valid() && b.Valid()
    ensures a.SameAs(b) <==>
      Render(a.nbElements, a.nbMaxElements, a.Elements()) == Render(b.nbElements, b.nbMaxElements, b.Elements())
  {
    if Render(a.nbElements, a.nbMaxElements, a.Elements()) == Render(b.nbElements, b.nbMaxElements, b.Elements()) {
      RenderInjective(a.nbElements, a.nbMaxElements, a.Elements(), b.nbElements, b.nbMaxElements, b.Elements());
    }
  }

  /** A clone is independent: pushing onto the original leaves the clone as it was. */
  method CloneIsIndependent(s: PileInt, e: int32) returns (c: PileInt)
    requires s.Valid() && !s.EstPleine()
    modifies s`nbElements, s.contenu
    ensures fresh(c) && c.Valid() && s.Valid()
    ensures c.Elements() == old(s.Elements())
    ensures s.Elements() == old(s.Elements()) + [e]
  {
    c := s.Clone();
    s.Empiler(e);
  }

  /** The seeded constructor copies: writing to the array afterwards leaves the stack as it was. */
  method SeedIsCopied(elements: array<int32>, n: int, x: int32) returns (p: PileInt)
    requires 0 < n <= elements.Length <= INT_MAX
    modifies elements
    ensures fresh(p) && p.Valid()
    ensures p.Elements() == old(elements[..n]) && p.GetSommet() == old(elements[n - 1])
    ensures elements[n - 1] == x
  {
    p := new PileInt.FromArray(elements, n);
    elements[n - 1] := x;
  }

  /**
   * empiler as written breaks the class invariant: after one push onto an
   * empty stack of capacity 1 the count is 2, and since the count differs
   * from the capacity estPleine() is false, so a second push is let through
   * and attempts to write contenu[2] in a buffer of length 1, which throws
   * ArrayIndexOutOfBoundsException.
   */
  method EmpilerAsWrittenCounterexample() returns (p: PileInt)
    ensures p.nbMaxElements == 1 && p.contenu.Length == 1
    ensures p.nbElements == 2 && !p.Valid()
    ensures p.nbElements != p.nbMaxElements && p.nbElements >= p.contenu.Length
  {
    p := new PileInt(1);
    p.EmpilerAsWritten(7);
  }

  /**
   * depiler as written breaks the class invariant: a stack seeded with the
   * one element of a one-element array, then popped, has count -1.
   */
  method DepilerAsWrittenCounterexample() returns (p: PileInt)
    ensures p.nbMaxElements == 1 && p.nbElements == -1 && !p.Valid()
  {
    var a := new int32[1];
    a[0] := 7;
    p := new PileInt.FromArray(a, 1);
    p.DepilerAsWritten();
  }
}
