# PileInt: a bounded stack of integers, in Dafny

This project models `pilesimple.PileInt`. It is a last-in-first-out stack of
Java `int`s with a fixed capacity, stored in an array the stack owns. The
state is the same three fields as in Java:

- `contenu`, the buffer;
- `nbMaxElements`, the capacity;
- `nbElements`, the count.

The live elements are `contenu[0..nbElements)`, and the top is the last of
them. The class invariant `0 <= getNbElements() <= getNbMaxElements()` is the
predicate `Valid()`. It also says that the buffer has the capacity as its
length and that the capacity is a Java `int`. Every constructor and every
state-changing method establishes or preserves `Valid()`, except the two
as-written methods `EmpilerAsWritten` and `DepilerAsWritten`, which exist to
show how the source breaks it (see "## Findings"). Every operation requires
`Valid()`.

Files:

- `JavaInt.dfy` (module `JavaInt`): the Java `int` range as the newtype `int32`, and `Wrap`, the two's-complement reduction that Java arithmetic performs on overflow.
- `Decimal.dfy` (module `Decimal`): the decimal text that Java gives an `int` when it is concatenated to a String (`Integer.toString`). It comes with a reading function and the proof that the reading function inverts it.
- `PileInt.dfy` (module `PileSimple`): the class `PileInt`. It also holds the functions `HashOf` and `Render`, which give the value of `hashCode` and `toString` from the count, the capacity and the live elements.

Form of the model:

- The constructors, `Empiler`, `Depiler` and `Clone` change the heap. They are written imperatively, over the `array<int32>` buffer.
- The getters and `EstVide`/`EstPleine` are Dafny functions, so they cannot change any field. This is the purity that the source's `@pure` tags promise.
- `Equals`, `HashCode` and `ToString` are loops over the live prefix, as in the source. Each one is proved against a pure specification.
- `equals`, `hashCode` and `toString` all depend only on (count, capacity, live elements). Equal stacks therefore have equal hash codes and equal texts. The text also determines the stack: two stacks are equal exactly when their `toString` texts are equal (`SameAsIffSameText`).

## Model

| member | source | states |
|---|---|---|
| `PileSimple.PileInt.constructor` | PileInt.java:17-32 | Given `0 <= nbMax < Integer.MAX_VALUE`, the new stack is valid and empty, has capacity `nbMax`, count 0 and a fresh buffer, and is full exactly when `nbMax == 0` |
| `PileSimple.PileInt.FromArray` | PileInt.java:34-55 | Given `0 <= n <= elements.length`, the stack has capacity `elements.length`, count `n` and a fresh buffer equal to `elements`. Its live elements are `elements[..n]`, its top is `elements[n-1]` when `n > 0`, and it is full when `n == elements.length` |
| `PileSimple.PileInt.GetNbMaxElements` | PileInt.java:57-67 | The capacity equals the buffer length and is at least the number of live elements |
| `PileSimple.PileInt.GetNbElements` | PileInt.java:69-78 | The count is the number of live elements and lies between 0 and the capacity (the class invariant of line 9) |
| `PileSimple.PileInt.GetSommet` | PileInt.java:80-91 | On a non-empty stack, returns the last live element (the most recently pushed one still present) |
| `PileSimple.PileInt.Empiler` | PileInt.java:93-107 | Given a stack that is not full: afterwards it is not empty, its top is `e`, its count is the old count + 1 and its live elements are the old ones followed by `e`. Capacity and buffer identity are unchanged and the invariant holds |
| `PileSimple.PileInt.Depiler` | PileInt.java:109-119 | Given a non-empty stack: afterwards it is not full and its count is the old count - 1. The old live elements are the new ones followed by the old top. Capacity and buffer are unchanged and the invariant holds |
| `PileSimple.PileInt.EstPleine` | PileInt.java:121-135 | True exactly when the count equals the capacity, that is, when the live elements fill the buffer |
| `PileSimple.PileInt.EstVide` | PileInt.java:137-149 | True exactly when the count is 0, that is, when there are no live elements |
| `PileSimple.PileInt.Equals` | PileInt.java:151-192 | True exactly when `o` is a non-null stack with the same count, the same capacity and the same live elements in order. It holds for `o == this`. Equal non-empty stacks have equal tops, and equal stacks have equal hash codes and equal texts |
| `PileSimple.SameAsIsEquivalence` | PileInt.java:151-192 | The equality that `equals` decides is reflexive, symmetric and transitive |
| `PileSimple.SameAsIffSameText` | PileInt.java:165-170 | Two stacks are equal exactly when their `toString` texts are equal (both directions) |
| `PileSimple.PileInt.Clone` | PileInt.java:194-217 | Returns a fresh stack with a fresh buffer that holds the same contents as the original buffer. The clone is valid and equal to the original, and the original is not modified |
| `PileSimple.CloneIsIndependent` | PileInt.java:207-216 | After cloning, a push onto the original leaves the clone's live elements as they were, because the clone owns its own buffer |
| `PileSimple.SeedIsCopied` | PileInt.java:51-55 | After seeded construction, a write to the caller's array leaves the stack's live elements and top as they were |
| `PileSimple.PileInt.HashCode` | PileInt.java:219-232 | Returns `HashOf(count, capacity, live elements)`. This equals the unbounded fold reduced once to an `int`, and also the closed-form polynomial `count*31^(n+1) + capacity*31^n + sum x_i*31^(n-1-i)` reduced to an `int` |
| `PileSimple.HashFoldWraps` | PileInt.java:227-230 | Running the accumulator `code = 31*code + x` with Java overflow at every step gives the same `int` as the exact unbounded accumulation reduced once |
| `PileSimple.HashOfIsPolynomial` | PileInt.java:226-232 | The hash of (count, capacity, elements) is the unbounded fold that starts from `count*31 + capacity`, reduced once to an `int`; equally, the reduced polynomial `count*31^(n+1) + capacity*31^n + sum x_i*31^(n-1-i)` |
| `PileSimple.PolyFoldClosedForm` | PileInt.java:227-230 | The unbounded accumulation started from `acc` over n elements equals `acc*31^n + sum x_i*31^(n-1-i)` |
| `JavaInt.Wrap` | PileInt.java:227-229 | Java `int` arithmetic gives the value of the `int` range that is congruent to the exact result modulo 2^32; a result already in range is unchanged |
| `PileSimple.PileInt.ToString` | PileInt.java:234-251 | Returns `"PileInt(" count "/" capacity "):["`, then each live element in decimal followed by a space, then `"]"` |
| `PileSimple.RenderItemsSnoc` | PileInt.java:247-249 | One turn of the `toString` loop appends the element's text and a space to the rendering of the elements before it |
| `PileSimple.RenderItemsInjective` | PileInt.java:247-249 | The rendered element list determines the elements |
| `PileSimple.RenderInjective` | PileInt.java:245-251 | The whole `toString` text determines the count, the capacity and the live elements |
| `Decimal.NatToDecimalReadsBack` | PileInt.java:246-248 | The decimal digits of a non-negative number are digits, have no leading zero, and read back as the number |
| `Decimal.IntToDecimalReadsBack` | PileInt.java:246-248 | The text of an `int` is a well-formed decimal numeral, starts with '-' exactly when the value is negative, and reads back as the value |
| `Decimal.IntToDecimalInjective` | PileInt.java:246-248 | Distinct integers have distinct texts |
| `PileSimple.PileInt.EmpilerAsWritten` | PileInt.java:104-107 | `empiler` as written: writes `e` at the old count and then advances the count by 2 |
| `PileSimple.PileInt.DepilerAsWritten` | PileInt.java:117-119 | `depiler` as written: moves the count back by 2 |
| `PileSimple.EmpilerAsWrittenCounterexample` | PileInt.java:98-107 | One push (as written) onto an empty stack of capacity 1 leaves count 2 in a buffer of length 1. The invariant fails, and `estPleine()` is false, so the next push is let through and attempts to write `contenu[2]`, which throws ArrayIndexOutOfBoundsException |
| `PileSimple.DepilerAsWrittenCounterexample` | PileInt.java:112-119 | A stack seeded from a one-element array with count 1 and then popped (as written) has count -1, which breaks the invariant |

## Findings

| source | as written | input that shows it | evidently intended | confidence | as-written member | corrected member |
|---|---|---|---|---|---|---|
| PileInt.java:106 | `nbElements = nbElements + 2` | `new PileInt(1)` then `empiler(7)`: the count becomes 2 with capacity 1; `estPleine()` is then false and a second `empiler` attempts to write `contenu[2]` and throws ArrayIndexOutOfBoundsException | `nbElements + 1`, as the `@ensures` on line 101 states | high (not executed) | `PileSimple.PileInt.EmpilerAsWritten`, `PileSimple.EmpilerAsWrittenCounterexample` | `PileSimple.PileInt.Empiler` |
| PileInt.java:118 | `nbElements = nbElements - 2` | `new PileInt(new int[]{7}, 1)` then `depiler()`: the count becomes -1 | `nbElements - 1`, as the `@ensures` on line 114 states | high (not executed) | `PileSimple.PileInt.DepilerAsWritten`, `PileSimple.DepilerAsWrittenCounterexample` | `PileSimple.PileInt.Depiler` |

The rest of the model uses the corrected `Empiler` and `Depiler`. The member that calls one of them is `CloneIsIndependent`, which pushes with `Empiler`.

## Left out

- `equals` against objects that are not `PileInt`: Dafny has no `Object` hierarchy. The parameter is `PileInt?`, so `null` gives `false` as in Java; any other type would also give `false`.
- The reflective `super.clone()` path, `CloneNotSupportedException` and `InternalError` in `clone`. `Clone` builds the copy with the seeded constructor over the whole buffer, which gives the same fields and a fresh copy of the array.
- The Java runtime exceptions `NullPointerException`, `NegativeArraySizeException` and `ArrayIndexOutOfBoundsException`. They become `requires` clauses, following the `@requires` tags. A Dafny array is never null.
- `PileSimple.PileInt.Depiler`: in the source, `depiler()` on an empty stack throws nothing; it only lowers the count (line 118), which becomes negative. The model forbids a pop on an empty stack, following the `@requires !estVide()` on line 112.
- `PileSimple.PileInt.FromArray`: the Java constructor does not check `nbElements` (lines 51-55), so a caller can build a stack that breaks the invariant. The model requires `0 <= n <= elements.Length`, as the `@requires` on lines 44-45 say. It also requires `elements.Length <= Integer.MAX_VALUE`, which Java array lengths always satisfy.
- `PileSimple.PileInt.Equals`: the `@ensures` on line 168 compares `getSommet()` of both stacks even when they are empty, where `getSommet()` is undefined. The model states the equal-tops property only for non-empty stacks.
- Every query requires the class invariant `Valid()`. The source states it as a class-wide `@invariant` rather than per method.
- The `getClass()` comparison in `clone`'s contract (line 202). Dafny has no subclasses of a class, so the clone is always a `PileInt`.
- `toString` never returns null in Dafny, so the `@ensures \result != null` on line 241 holds by typing.
- The random test-data generator (`BaseDataProviders.java`) and the JUnit harness (`PileIntTest.java`). They feed and check the stack and are not part of its behaviour. BaseDataProviders.java is not part of this model.
- Concurrency: the class has none, and neither does the model.
