# Reference-cycle detector

A Dafny model of the linked-list part of `mm_referenceCycle.py`: the `Node`
record, whose `next` link can be reassigned after construction so that nodes
may point back at each other, and `has_cycle`, Floyd's "tortoise and hare"
detector. Two cursors start at the head; `slow` follows one `next` link per
iteration and `fast` two. The function answers true as soon as the cursors
land on the same node object, and false as soon as `fast` or `fast.next` is
`None`.

The model lives in `reference_cycle.dfy`, module `ReferenceCycle`:

- `Node<T>` is a class with the mutable fields `value` and `next: Node?<T>`.
  Python's `None` is `null`. Python compares nodes by identity because `Node`
  defines no `__eq__`, and Dafny's `==` on references does the same.
- `HasCycle` is a method with the source's `while` loop over the two cursors.
  Its extra ghost parameter `nodes` is a finite set of nodes closed under
  `next` that contains the head. It stands for the finite Python heap the list
  lives in. Finiteness is what makes the loop end on a cyclic list.
- The specification is stated with ghost functions. `Walk(nodes, n, k)` is
  the node `k` links after `n`, or `null` once the list has ended.
  `ReachesEnd` says some walk from the head reaches `null`. `HasLoop` says the
  walk visits one node at two different steps.
- The main result is that `HasCycle` returns true exactly when the list never
  ends, and exactly when it contains a loop. Both directions are proved, so
  every acyclic list yields false and every cyclic list yields true. The
  method has no `modifies` clause, so it provably writes no node's `value` or
  `next`.
- Termination rests on a ghost bound. If the list ends at step `k`, `fast` is
  `null` by iteration `k`. If the list is cyclic, `MeetingPoint` gives a step
  `b >= 1` with `Walk(b) == Walk(2b)`. It is found by pigeonhole over the
  finite node set, and the cursors meet by iteration `b`.

## Model

| member | source | states |
|---|---|---|
| `ReferenceCycle.Node.constructor` | mm_referenceCycle.py:2-4 | a new node stores the given `value` and its `next` is `null` (`None`) |
| `ReferenceCycle.Walk` | mm_referenceCycle.py:18-19 | following `next` links from a node of a closed region stays in the region or ends at `null` |
| `ReferenceCycle.HasCycle` | mm_referenceCycle.py:12-24 | the result is true iff the list from `head` never reaches `null`, and iff the walk from `head` revisits a node; a true result comes with a step `i >= 1` where the node `i` links on is the node `2i` links on (the cursors met); a `null` head gives false; the loop invariant keeps `slow` at step `i` and `fast` at step `2i`; no node is written |
| `ReferenceCycle.LoopIffEndless` | mm_referenceCycle.py:21-24 | on a finite closed region, revisiting a node and never reaching `null` are equivalent, so the two ways the loop stops (meeting, or `fast`/`fast.next` being `None`) split lists into cyclic and acyclic exactly |
| `ReferenceCycle.MeetingPoint` | mm_referenceCycle.py:17-22 | on a cyclic list there is a step `b >= 1` with a non-null node where one cursor at step `b` and the other at step `2b` coincide, so the loop is bound to return true |
| `ReferenceCycle.NullStays` | mm_referenceCycle.py:17-19 | once a walk has reached `null` every later step is `null`, so `slow`, which trails `fast`, is never `None` when it is dereferenced |
| `ReferenceCycle.WalkAdd` | mm_referenceCycle.py:18-19 | following `a` links and then `b` more lands where following `a + b` links does |
| `ReferenceCycle.Periodic` | mm_referenceCycle.py:18-19 | once a walk returns to the node it held `lam` steps earlier at step `mu`, it repeats with period `lam` from step `mu` on |
| `ReferenceCycle.PeriodicMany` | mm_referenceCycle.py:18-19 | from step `mu` on, going round the period any number of times returns to the same node |
| `ReferenceCycle.LoopNeverEnds` | mm_referenceCycle.py:17 | a walk that revisits a non-null node is non-null at every step, so the loop guard never fails on a cyclic list |
| `ReferenceCycle.TwoNodeCycle` | mm_referenceCycle.py:7-10 | the two nodes built at module level, `node1 -> node2 -> node1`, are reported as cyclic (the `True` printed at line 26) |

## Left out

- The `print("Hi!")` inside `has_cycle` (mm_referenceCycle.py:15) and the demo prints at lines 26-27 are console output. The result printed at line 26 is what `TwoNodeCycle` returns.
- The reference-counting, `del`, `weakref` and `gc.collect()` demonstration (mm_referenceCycle.py:29-57) is about the Python runtime's memory management, not program logic. Lines 44-49 would also fail with a `NameError`, because they use names deleted at line 44.
- `weakref.ref(node1)` stored into `next` (line 53) is not a `Node`, so it is outside the `Node?` type of the model.
- chatbot.py is not part of this model. It configures and calls the ChatterBot and NLTK libraries, trains on a corpus stored in SQLite, and runs an `input`/`print` console loop. All of that is foreign library calls and I/O.
- `HasCycle` takes the heap region `nodes` as a ghost parameter that the Python function does not have. It exists only to state reachability over a finite set of nodes, and it is erased when compiled.
