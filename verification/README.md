# Group and Vec, modelled in Dafny

This project models two small value components from a textbook exercise set.

- **Group** (`group.dfy`, module `Groups`) is a set-like collection backed by an ordered sequence.
  `has` is a linear scan with strict equality.
  `add` appends an element at the end, but only when `has` says it is absent.
  `delete` filters out every element equal to its argument.
  `Group.from` wraps a sequence exactly as given, without removing duplicates.
  The no-duplicates invariant is defined as `NoDuplicates`.
  `add` and `delete` preserve it, but `from` does not establish it.
- **Vec** (`vector.dfy`, module `Vectors`) is an immutable 2D vector.
  `plus` and `minus` work component by component and return a new vector.

The source mutates a group in place. In the model, a group is an immutable
datatype value, and `Add` and `Delete` return the group's new state. Group
elements have a generic type with Dafny equality. Vector coordinates are
mathematical integers.

## Model

| member | source | states |
|---|---|---|
| `Groups.Scan` | chapter06/group.js:8-13 | the front-to-back scan with early return finds `e` exactly when some index of the sequence holds `e` |
| `Groups.Has` | chapter06/group.js:8-13 | `has(e)` is true exactly when `e` is an element of the content |
| `Groups.Add` | chapter06/group.js:15-19 | afterwards `has(e)` holds; if `e` was present the group is unchanged; if absent the content is the old content followed by `e` |
| `Groups.AddIdempotent` | chapter06/group.js:15-19 | adding the same element twice gives the same group as adding it once |
| `Groups.AddMembership` | chapter06/group.js:15-19 | after `add(e)` the members are exactly the old members plus `e`, and the old content is an unchanged prefix |
| `Groups.AddPreservesNoDuplicates` | chapter06/group.js:15-19 | if the content has no duplicates before `add`, it has none after |
| `Groups.Without` | chapter06/group.js:22 | the filter result lacks `e`, keeps every other element of the input and nothing else, and its multiset is the input's with the count of `e` set to zero |
| `Groups.Delete` | chapter06/group.js:21-23 | after `delete(e)`, `has(e)` is false however often `e` occurred; every member other than `e` stays a member; no new member appears; only the copies of `e` are removed |
| `Groups.WithoutConcat` | chapter06/group.js:22 | the filter distributes over concatenation, so surviving elements keep their relative order |
| `Groups.WithoutIsSubsequence` | chapter06/group.js:22 | the filter result is a subsequence of its input, so the original order is kept |
| `Groups.WithoutAbsent` | chapter06/group.js:22 | filtering out an element that does not occur returns the sequence unchanged |
| `Groups.DeleteAbsent` | chapter06/group.js:21-23 | deleting an element the group does not have leaves the group unchanged |
| `Groups.DeleteIdempotent` | chapter06/group.js:21-23 | deleting the same element twice gives the same group as deleting it once |
| `Groups.WithoutPreservesNoDuplicates` | chapter06/group.js:22 | filtering a duplicate-free sequence yields a duplicate-free sequence |
| `Groups.DeletePreservesNoDuplicates` | chapter06/group.js:21-23 | if the content has no duplicates before `delete`, it has none after |
| `Groups.DeleteUndoesAdd` | chapter06/group.js:15-23 | adding an absent element and then deleting it gives back the original group |
| `Groups.From` | chapter06/group.js:25-27 | the group built by `from(s)` has content exactly `s`, with no deduplication or reordering |
| `Groups.FromKeepsDuplicates` | chapter06/group.js:3-6 | `from([x, x])` keeps both copies, so it breaks the no-duplicates invariant, and `delete(x)` still removes every copy |
| `Groups.Demo` | chapter06/group.js:37-45 | `from([10, 20])` has 10 and not 30; after `add(10)` and `delete(10)` it lacks 10, still has 20, and its content is `[20]` |
| `Vectors.Plus` | chapter06/vector.js:8-12 | each coordinate of the result is the sum of the operands' coordinates, and subtracting the argument from the result gives back the receiver |
| `Vectors.Minus` | chapter06/vector.js:14-18 | each coordinate of the result is receiver minus argument |
| `Vectors.PlusUndoesMinus` | chapter06/vector.js:8-18 | adding back the subtracted vector restores the receiver |
| `Vectors.Demo` | chapter06/vector.js:24-27 | `(1,2) plus (2,3)` is `(3,5)` and `(1,2) minus (2,3)` is `(-1,-1)` |

## Left out

- `next` (chapter06/group.js:29-34): it reads the unbound names `index` and `value`. A class body is strict-mode code, so the method throws instead of iterating. Its stop test at `length - 1` would also stop one element too early.
- The `index` field (chapter06/group.js:5) is used only by `next`, so the `Group` datatype does not include it.
- Aliasing: the constructor stores the caller's array by reference (chapter06/group.js:4). Later mutation of that array through another reference is not modelled, because content is a value sequence.
- In-place mutation: `add` and `delete` change the receiver. The model returns the new state as a value instead.
- Strict equality: JavaScript `===` is modelled as Dafny `==`. In JavaScript `NaN !== NaN`, so `has(NaN)` is always false and `add(NaN)` always appends. Objects compare by reference identity. Neither case is modelled.
- `Vectors.Plus`, `Vectors.Minus`: JavaScript numbers are doubles. The model uses unbounded integers, so rounding, overflow to infinity, NaN and string concatenation through `+` are not modelled. The round trip `Minus(Plus(v, w), w) == v` holds for integers, not for doubles in general.
- `length` (chapter06/vector.js:20-22) is a double-precision `Math.sqrt`, so it is outside an integer model. The demonstration at chapter06/vector.js:28 reads `.length` without calling it, so it would print the function itself, not the commented value 5.
- The demonstrations' console output is I/O. Their values are stated as the `Groups.Demo` and `Vectors.Demo` lemmas.
