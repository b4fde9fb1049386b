# Iterator concepts and algorithms, modelled in Dafny

This project models the TestIterator experiments. The main part is
`05.Copy.cpp`, which covers these pieces:

- **Positions.** Two kinds of position, a pointer into an array and a pointer to a
  singly linked `node`, share one vocabulary: `source`, `sink`, `successor`
  and `predecessor`.
- **Capabilities.** C++ concepts (`Regular`, `Iterator`, `ForwardIterator`,
  `BidirectionalIterator`, `RandomAccessIterator`, `ContiguousIterator`,
  `Readable`, `Writable`) decide which position types an algorithm accepts. The
  `value_type` trait resolves a position's element type.
- **Algorithms.** The generic algorithms are `copy`, `fill`, `max_element`,
  `reverse` and `upper_bound`.
- **Dispatch.** A `copy` overload for contiguous, trivially copyable ranges
  does a single `memmove`. Overload resolution picks the more constrained
  overload.

Four smaller iterator adaptors complete the model:

- `01.NumberSequence.cpp`: an `int` counter;
- `02.Wrapper.cpp`: an upper-casing view of a string;
- `03.Non-1-1.cpp`: a colon-separated tokenizer whose iterator reads ahead;
- `04.PostInc.cpp`: a numeric range whose iterators share one counter and
  throw on misuse.

Layout:

| file | module | what it holds |
|---|---|---|
| `wrappers.dfy` | `Wrappers` | `Option`, `Result` (errors carry the exception message), `Min` |
| `primitives.dfy` | `Primitives` | a `Store` is an array or a pool of nodes; positions are integers; `Source`, `Sink`, `Successor`, `Predecessor`, range validity, `Positions`, `Elements`, `Advance` |
| `algorithms.dfy` | `Algorithms`, `AlgorithmExamples` | generic `copy`, `fill`, `max_element`, `reverse`, and the program's own test cases |
| `fast_copy.dfy` | `FastCopy` | the contiguous `copy` overload, at element level and at byte level |
| `upper_bound.dfy` | `UpperBound` | the binary search as written (fuel-bounded) and as intended |
| `types.dfy` | `Types` | a small universe of C++ types, `decay`, `remove_cv`, the `value_type` trait, trivially copyable types |
| `capabilities.dfy` | `Capabilities` | the concepts as sets of atomic requirements, as written and with the hierarchy refined as intended |
| `dispatch.dfy` | `Dispatch` | which `Concept::copy` overload a call selects; which positions each algorithm accepts |
| `number_sequence.dfy` | `NumberSequence` | `01.NumberSequence.cpp` |
| `upper_view.dfy` | `UpperView` | `02.Wrapper.cpp` |
| `colon_sep.dfy` | `ColonSep` | `03.Non-1-1.cpp` |
| `post_inc.dfy` | `PostInc` | `04.PostInc.cpp` |

Modelling choices:

- **Loops as recursion.** Every algorithm is a recursive function that follows
  its loop, one iteration per call. `Algorithms.CopyLoop`,
  `ColonSep.ReadItemLoop`, `FastCopy.MoveWithin` and
  `NumberSequence.FillVector` restate a loop as a method and prove that it
  computes the function.
- **Node ranges.** A node range is valid when following `next` from the
  first node reaches the last one. Walks are bounded by the number of nodes.
- **Integers.** Elements are mathematical integers.
- **Compile-time checks.** The concepts and the overload choice are
  predicates on a `Type` datatype. A compile-time rejection becomes the
  predicate being false, or the `NoMatch` or `Ambiguous` choice.

Where the program's comments and its code disagree, the model follows the
code. Two such cases matter:

- **Node pointers and `RandomAccessIterator`.** The laws commented at
  05.Copy.cpp:161-167 are stated with `predecessor`, yet the concept does not
  require `predecessor`, and `node<T>*` supports pointer arithmetic. So node
  pointers satisfy it, and `upper_bound` accepts them (see Findings).
- **The `upper_bound` left step.** The comment at 05.Copy.cpp:325 says each
  step reduces the problem size, but the left step at line 327 recurses on
  `[it, mid + 1)`, which does not shrink a range of one or two elements (see
  Findings).

## Model

| member | source | states |
|---|---|---|
| Primitives.Sink | 05.Copy.cpp:32-33 | writing through a position changes the element there to the new value, keeps every other element, and keeps the shape (array length, node links) |
| Primitives.Predecessor | 05.Copy.cpp:34-36 | on array positions `predecessor` is a right inverse of `successor`: the successor of the predecessor of p is p |
| Primitives.RetreatUndoesAdvance | 05.Copy.cpp:34-36 | retreating after advancing an array position gives back the position |
| Primitives.StepRange | 05.Copy.cpp:34-35 | in a non-empty valid range the first position can be read, and its successor starts a valid range one element shorter |
| Primitives.EmptyRange | 05.Copy.cpp:43 | a valid range has no elements exactly when its two ends are equal |
| Primitives.ElementsStep | 05.Copy.cpp:30-35 | the elements of a non-empty range are the first element followed by those of the rest |
| Primitives.ArrayPositions | 05.Copy.cpp:34 | an array range from `first` to `last` visits `first`, `first + 1`, …, `last - 1` |
| Primitives.ArrayElements | 05.Copy.cpp:30 | reading a whole array range gives the array |
| Primitives.NodePositions | 05.Copy.cpp:35 | a node range visits the nodes reached by following `next` |
| Primitives.PositionsDistinct | 05.Copy.cpp:35 | a terminating node walk never visits a node twice, so a write through one position of a range cannot alter another |
| Primitives.Advance | 05.Copy.cpp:34-35 | advancing k steps from the start leaves exactly the range minus its first k positions |
| Primitives.ArrayAdvance | 05.Copy.cpp:34 | on arrays, advancing k steps is adding k |
| Algorithms.CopyLoop | 05.Copy.cpp:40-50 | the unconstrained `copy` loop, read-write-advance until either range ends, computes the same destination and returned position as the recursive model |
| Algorithms.Copy | 05.Copy.cpp:253-264 | `copy` only writes elements: the destination keeps its shape (array length, node links) and size |
| Algorithms.CopyWrites | 05.Copy.cpp:253-264 | the first k = min(source length, destination length) destination positions receive the source elements in order |
| Algorithms.CopyFrame | 05.Copy.cpp:253-264 | no position outside those first k destination positions changes, including positions outside the destination range |
| Algorithms.CopyReturns | 05.Copy.cpp:253-264 | the returned position is the destination start advanced k steps, i.e. just past the last element written |
| Algorithms.CopyContents | 05.Copy.cpp:253-264 | reading the destination range afterwards gives the copied source prefix followed by the untouched destination tail |
| Algorithms.Fill | 05.Copy.cpp:279-288 | `fill` only writes elements: the store keeps its shape |
| Algorithms.FillSpec | 05.Copy.cpp:279-288 | after `fill` a position holds the value exactly when it lies in the range; all other positions keep their elements; an empty range is a no-op |
| Algorithms.FillElements | 05.Copy.cpp:279-288 | reading the filled range back yields the value at every step |
| Algorithms.FirstMaxUnique | 05.Copy.cpp:296 | the first maximum of a sequence is unique |
| Algorithms.MaxElementFrom | 05.Copy.cpp:294-299 | the scan returns either the best position it started with or a readable position |
| Algorithms.MaxElementFromSpec | 05.Copy.cpp:294-299 | the scan keeps the best position seen so far: it is the earlier best unless a strictly greater element appears, in which case it is the first maximum of the rest |
| Algorithms.MaxElementSpec | 05.Copy.cpp:290-300 | `max_element` returns the end on an empty range and otherwise the position of the first maximum; ties keep the earliest |
| Algorithms.MaxElement | 05.Copy.cpp:290-300 | `max_element` returns the end on an empty range and a readable position otherwise |
| Algorithms.Swap | 05.Copy.cpp:308-310 | swapping through a temporary exchanges two elements and keeps the rest |
| Algorithms.SwapPermutes | 05.Copy.cpp:308-310 | a swap is a permutation |
| Algorithms.Reverse | 05.Copy.cpp:302-313 | `reverse` keeps the length and every element outside the range |
| Algorithms.ReverseSpec | 05.Copy.cpp:302-313 | inside the range, position i receives the element mirrored about the centre; outside, nothing changes |
| Algorithms.ReverseContents | 05.Copy.cpp:302-313 | the range reads reversed afterwards and the prefix and suffix around it are unchanged |
| Algorithms.ReverseKeepsCentre | 05.Copy.cpp:306-307 | on an odd-length range the loop stops on the centre and leaves it in place |
| Algorithms.ReverseInvolution | 05.Copy.cpp:302-313 | reversing twice gives back the original |
| Algorithms.ReversePermutes | 05.Copy.cpp:302-313 | `reverse` is a permutation of the whole array |
| AlgorithmExamples.CopyArrayExample | 05.Copy.cpp:334-346 | copying {1,2,3,4,5} into seven zeros gives {1,2,3,4,5,0,0} (so element 3 is 4 and element 4 is 5) and returns position 5 |
| AlgorithmExamples.ExampleListElements | 05.Copy.cpp:349-357 | the three linked nodes holding 9, 8 and 7, ending at the sentinel, form a valid range reading 9, 8, 7 |
| AlgorithmExamples.CopyNodeExample | 05.Copy.cpp:347-362 | copying that list into seven zeros gives {9,8,7,0,0,0,0} |
| AlgorithmExamples.MaxElementExample | 05.Copy.cpp:363-368 | `max_element` over {1,2,3,4,5} points at the 5 |
| AlgorithmExamples.MaxElementTieExample | 05.Copy.cpp:296 | over {5,3,5,1} it points at the first 5 |
| AlgorithmExamples.ReverseExamples | 05.Copy.cpp:369-374 | reversing {1,2,3,4,5} gives {5,4,3,2,1}, and reversing {1,2,3,4} gives {4,3,2,1} |
| FastCopy.Transfer | 05.Copy.cpp:273 | a block move of `count` elements keeps the target's length, puts source element `input + (j - out)` in every target slot j of the window `[out, out + count)`, and keeps every slot outside it |
| FastCopy.MoveWithin | 05.Copy.cpp:273 | moving within one array, copying forwards or backwards as the overlap requires, gives the same result as moving through a buffer |
| FastCopy.FastCopyAsWritten | 05.Copy.cpp:266-275 | as written, the fast path keeps the length, returns `out_end`, changes nothing outside the destination window, and fills the whole window with the source elements in order when the source is at least as long |
| FastCopy.FastCopy | 05.Copy.cpp:266-275 | corrected, the fast path returns the position just past the last element written, which is `out_end` or `out + (in_end - in)`, whichever is nearer; the destination up to it holds the source elements in order and everything else is unchanged |
| FastCopy.CopyWithin | 05.Copy.cpp:253-264 | the generic element-by-element `copy` with source and destination in one array writes min(source length, destination length) positions from `out`, returns the position after them, and leaves every other element alone |
| FastCopy.CopyWithinForward | 05.Copy.cpp:253-275 | within one array, when the destination starts at or before the source, the element-by-element copy gives the same array and returned position as the block move |
| FastCopy.OverlapExample | 05.Copy.cpp:253-275 | on {1,2,3,4}, copying positions 0..2 to positions 1..3 element by element gives {1,1,1,1}, while the block move gives {1,1,2,3} |
| FastCopy.FastCopyMatchesGeneric | 05.Copy.cpp:266-275 | the fast path with its return value corrected gives exactly the generic `copy`'s destination and returned position on arrays |
| FastCopy.AsWrittenReturnDiffers | 05.Copy.cpp:272-274 | as written, the fast path writes what the generic body writes, but returns a different position exactly when the source is shorter than the destination |
| FastCopy.FastCopyExample | 05.Copy.cpp:343 | on the array test, the fast path as written returns 7, the corrected one 5 |
| FastCopy.LayoutTransfer | 05.Copy.cpp:273 | moving the bytes of k whole elements is moving those k elements |
| FastCopy.FastCopyBytesAsWritten | 05.Copy.cpp:272-273 | as written, `memmove` with `count` as its byte count: the byte image keeps its length and the first `count` bytes of the destination window come from the source bytes in order |
| FastCopy.FastCopyBytes | 05.Copy.cpp:272-273 | with the byte count scaled by the element width, the destination bytes are exactly the bytes of the element-level result |
| FastCopy.AsWrittenMovesTooFewBytes | 05.Copy.cpp:272-273 | with the element count passed as a byte count, every byte of the copied window past the first count bytes keeps its old value |
| FastCopy.MemmoveCountExample | 05.Copy.cpp:343-345 | on the array test, as written, element 3 keeps its zero bytes and element 1 is torn; the scaled count puts 4 in element 3 |
| UpperBound.MidDistance | 05.Copy.cpp:321-324 | halving the distance keeps the midpoint inside a non-empty range, short of its end |
| UpperBound.UpperBoundAsWritten | 05.Copy.cpp:315-328 | as written, with bounded recursion depth: any returned position lies in the range, and the search returns its start exactly when the range is empty |
| UpperBound.AsWrittenStuck | 05.Copy.cpp:315-328 | as written, once the last element of a non-empty range exceeds x, no recursion depth reaches the base case |
| UpperBound.AsWrittenReturnsEnd | 05.Copy.cpp:315-328 | as written, whenever the search returns at all, it returns the end of the range |
| UpperBound.AsWrittenAllAtMost | 05.Copy.cpp:320-326 | as written, when every element is at most x, the search returns the end |
| UpperBound.AsWrittenTerminatesIff | 05.Copy.cpp:315-328 | on a sorted range, the search as written terminates exactly when the range is empty or its last element is at most x |
| UpperBound.UpperBound | 05.Copy.cpp:315-328 | the corrected search returns a position inside the range |
| UpperBound.UpperBoundSpec | 05.Copy.cpp:315-328 | on a sorted range the corrected search splits it: everything before the result is at most x, everything from it on exceeds x |
| UpperBound.AsWrittenAgreesWhenItReturns | 05.Copy.cpp:315-328 | whenever the search as written returns on a sorted range, it agrees with the corrected search |
| UpperBound.UpperBoundExamples | 05.Copy.cpp:315-328 | on {1,3,3,5,7}: x = 3 gives index 3, x = 0 gives 0, x = 7 gives the end |
| UpperBound.AsWrittenTrace | 05.Copy.cpp:326-327 | as written, on {1,3,3,5,7} with x = 3 the right step takes [0, 5) to [3, 5), and the left step takes [3, 5) back to itself |
| UpperBound.AsWrittenExamples | 05.Copy.cpp:326-327 | as written, x = 3 and x = 0 never return on {1,3,3,5,7}; x = 7 returns the end |
| Types.RemoveCv | 05.Copy.cpp:86 | on a well-formed type the result carries no const or volatile, neither at top level nor on an array's element, and is well-formed; being an object type is kept |
| Types.RemoveCvIdempotent | 05.Copy.cpp:86 | stripping qualifiers twice is stripping them once; a type that is neither qualified nor an array is left as it is |
| Types.Decay | 05.Copy.cpp:76-81 | decay yields no reference, array, function or cv-qualified type |
| Types.PointerValueType | 05.Copy.cpp:83-87 | a pointer to an object type has the pointee without cv-qualifiers as value type; other pointers have none |
| Types.ValueType | 05.Copy.cpp:74-109 | only pointers, arrays, classes, const-qualified types and cv-qualified classes can have a value type; scalars, references and functions never do |
| Types.NodePointerWins | 05.Copy.cpp:102-106 | for `node<T>*` the node specialisation wins: the value type is the `value` field's type, not the node |
| Types.ConstNodePointer | 05.Copy.cpp:80-106 | for `node<T> const*` the value type is the node itself, since the node specialisation matches only non-const nodes |
| Types.ArraysAndConstDecay | 05.Copy.cpp:76-81 | an array of non-const elements resolves as a pointer to its element; an array of non-node elements resolves to the element without qualifiers; an array of `node<T> const` resolves to T; a const type resolves as the unqualified type |
| Types.MemberMustBeObject | 05.Copy.cpp:89-100 | a class's member alias is the value type exactly when it names an object type; a class without one has none |
| Types.ValueTypeIsObject | 05.Copy.cpp:74-109 | a resolved value type is an object type, or a reference when a node's `value` field is one, since the node specialisation does not ask for an object |
| Types.ScalarsHaveNone | 05.Copy.cpp:74 | `int`, `char`, cv-qualified scalars, `void*`, function pointers and references have no value type |
| Types.PointerExamples | 05.Copy.cpp:74-109 | `int*`, `int const*` and `int* const` give `int`; `node<int>*` gives `int`; `node<int const>*` gives `int const` |
| Types.ArrayExamples | 05.Copy.cpp:76-106 | `char const[]` gives `char`; `node<int>[]` and `node<int> const[]` give `int`; `node<int> const volatile[]` gives the node itself |
| Types.TriviallyCopyable | 05.Copy.cpp:269 | trivially copyable types are object types |
| Capabilities.AddConst | 05.Copy.cpp:116 | adding const gives a const type with the same unqualified type and the same volatility |
| Capabilities.Regular | 05.Copy.cpp:60-70 | a regular type is an object type that is not an array, not a node and not const-qualified |
| Capabilities.Readable | 05.Copy.cpp:112-117 | a readable pointer never points to a volatile object, since a `T const&` cannot bind to a volatile lvalue; `source` is resolved with the node overload for `node<T>*` and `node<T> const*` alike |
| Capabilities.Writable | 05.Copy.cpp:119-124 | every writable type is readable |
| Capabilities.Holds | 05.Copy.cpp:112-181 | every requirement other than `Regular` and `WeaklyOrdered` holds only for pointers to object types, and the `pointer_from` requirement never holds |
| Capabilities.IteratorIffForward | 05.Copy.cpp:126-140 | `Iterator` and `ForwardIterator` accept exactly the same types, yet under the C++20 rule, where one atomic constraint subsumes another only when both come from the same place in the source, neither concept subsumes the other |
| Capabilities.WeaklyOrderedAlways | 05.Copy.cpp:152-153 | every type is `WeaklyOrdered` |
| Capabilities.ContiguousNever | 05.Copy.cpp:173-181 | as written, no type is a `ContiguousIterator`, because `pointer_from` is never declared |
| Capabilities.IteratorsArePointers | 05.Copy.cpp:30-170 | only pointers to object types have `successor` or pointer arithmetic, so only they are iterators |
| Capabilities.BidirectionalIsForward | 05.Copy.cpp:135-149 | a bidirectional iterator is a forward iterator and an iterator |
| Capabilities.ObjectPointerCapabilities | 05.Copy.cpp:112-170 | a pointer to an unqualified object type other than a node is iterator, forward, bidirectional and random access, readable and writable |
| Capabilities.ConstPointerReadOnly | 05.Copy.cpp:112-124 | a pointer to the const-qualified version of such a type is readable but not writable |
| Capabilities.QualifiedNodePointerUnreadable | 05.Copy.cpp:30-33 | a pointer to a const or volatile node is neither readable nor writable: for `node<T> const*` the node overload of `source` yields `T const&` although the value type is the node, and a volatile node yields a volatile lvalue |
| Capabilities.NodePointerCapabilities | 05.Copy.cpp:37-170 | `node<T>*` is iterator, forward and random access, readable and writable, but not bidirectional |
| Capabilities.RefinedChain | 05.Copy.cpp:126-181 | with each concept refining the previous one, the requirement sets form a chain from `Iterator` to `ContiguousIterator` |
| Capabilities.RefinedContiguousIff | 05.Copy.cpp:173-181 | once `pointer_from` exists, a type is contiguous exactly when a pointer to its const value type converts from it; for well-formed types, exactly the pointers to objects that are neither nodes nor volatile |
| Capabilities.RefinedRandomAccessIsBidirectional | 05.Copy.cpp:142-170 | in the refined hierarchy a random-access type is bidirectional and is not a node pointer |
| Dispatch.Resolve | 05.Copy.cpp:253-275 | overload resolution: no match when neither is viable; a lone viable one wins; of two, the strictly more constrained; otherwise ambiguous |
| Dispatch.PassesAsWritten | 05.Copy.cpp:268-269 | as written, whenever the same-type test on the trait structs passes, the same test on the value types passes too |
| Dispatch.Passes | 05.Copy.cpp:268-269 | corrected, the trivially-copyable test passes only when the input has a value type and it is an object type |
| Dispatch.ChooseCopyAsWritten | 05.Copy.cpp:253-275 | as written, a call never chooses the fast path and is never ambiguous |
| Dispatch.ChooseCopy | 05.Copy.cpp:253-275 | refined, a call is never ambiguous, and fails to match only when the fast overload is not viable either |
| Dispatch.ReadableWritableConcepts | 05.Copy.cpp:112-124 | the readable and writable requirement atoms hold exactly when the types are readable and writable |
| Dispatch.GenericViableIff | 05.Copy.cpp:253-254 | the generic overload is viable exactly when both sides are iterators, the input readable and the output writable |
| Dispatch.FastNeverViableAsWritten | 05.Copy.cpp:266-269 | as written, the fast overload is never viable |
| Dispatch.ChooseCopyAsWrittenSpec | 05.Copy.cpp:253-275 | as written, `Concept::copy` never chooses the fast path; it chooses the generic body exactly when that applies, and otherwise fails to match |
| Dispatch.AsWrittenWouldBeAmbiguous | 05.Copy.cpp:266-269 | as written, the fast overload's constraints do not subsume the generic ones, so if it were viable the call would be ambiguous |
| Dispatch.AsWrittenTestsMissTheValueType | 05.Copy.cpp:268-269 | the type tests on the trait structs reject `int const*` to `int*` although the value types agree, and accept a non-trivially-copyable class |
| Dispatch.FastSubsumesGeneric | 05.Copy.cpp:253-275 | in the refined hierarchy the fast overload is strictly more constrained than the generic one |
| Dispatch.FastViableIff | 05.Copy.cpp:266-269 | the refined fast overload is viable exactly when both sides are contiguous, the input readable, the output writable, and the value types equal and trivially copyable |
| Dispatch.FastImpliesGeneric | 05.Copy.cpp:253-269 | wherever the fast path applies, the generic body applies too |
| Dispatch.ChooseCopySpec | 05.Copy.cpp:253-275 | with the refined hierarchy, `copy` chooses the fast path exactly when it applies and the generic body exactly when only that applies; it is never ambiguous |
| Dispatch.CopyCallsAsWritten | 05.Copy.cpp:343-358 | as written, the array and node copy tests both run the generic body |
| Dispatch.CopyCallFast | 05.Copy.cpp:343 | refined, `int*` to `int*` takes the fast path |
| Dispatch.CopyCallFromConstFast | 05.Copy.cpp:266-269 | refined, `int const*` to `int*` takes the fast path |
| Dispatch.CopyCallsOther | 05.Copy.cpp:253-275 | refined, `node<int>*` to `int*` takes the generic body, and `int*` to `int const*` matches no overload |
| Dispatch.ConstNodePointerRejected | 05.Copy.cpp:253-317 | `max_element` and `upper_bound` reject `node<int> const*`, and `copy` from it to `node<int>*` matches no overload, as written and refined |
| Dispatch.FillNeverCallableAsWritten | 05.Copy.cpp:279-288 | as written, with the value parameter typed as the trait struct `value_type<It>`, no argument initialises it and no element can be assigned from it, so no call to `fill` compiles |
| Dispatch.FillCallableWithElement | 05.Copy.cpp:279-288 | with the parameter typed `value_type_t<It>`, `fill` accepts an element of the value type whenever that type is regular and not const, and any arithmetic argument for an arithmetic value type |
| Dispatch.FillExamples | 05.Copy.cpp:279-288 | corrected, `fill` on `int*` with an `int` and on `node<int>*` with a `char` compiles, with an `int*` argument or on `int const*` it does not; as written, `int*` with `int` does not |
| Dispatch.AlgorithmAcceptance | 05.Copy.cpp:279-317 | for an unqualified object element type other than a node, `fill`, `max_element` and `upper_bound` accept node pointers and `reverse` does not; array pointers are accepted by all four |
| Dispatch.RefinedUpperBoundRejectsNodes | 05.Copy.cpp:142-316 | with random access refining bidirectional, `upper_bound` rejects node pointers and still accepts `int*` |
| NumberSequence.AdvanceAdds | 01.NumberSequence.cpp:45-49 | k prefix increments add k, and a counter never comes back to an earlier value |
| NumberSequence.PreInc | 01.NumberSequence.cpp:45-49 | prefix increment adds one, so the result never compares equal to the counter it came from |
| NumberSequence.EqualityLaws | 01.NumberSequence.cpp:35 | `==` is an equivalence, increments preserve and reflect it, and `begin()` advanced k times equals `end()` exactly when start + k is the end |
| NumberSequence.PostInc | 01.NumberSequence.cpp:38-43 | the returned holder reads the old value and the counter is one more |
| NumberSequence.PostIncSpec | 01.NumberSequence.cpp:38-43 | the holder returned by postfix increment reads the old value while the counter moves on by one |
| NumberSequence.CollectCountsUp | 01.NumberSequence.cpp:66-77 | from start <= end the range-for loop yields start, start+1, …, end-1 |
| NumberSequence.Collect | 01.NumberSequence.cpp:66-72 | whenever the loop ends, it has yielded consecutive integers from the start, as many as the distance to the end |
| NumberSequence.CollectNeverEnds | 01.NumberSequence.cpp:61-63 | with start > end the counter never reaches the end |
| NumberSequence.CollectEndsIff | 01.NumberSequence.cpp:61-77 | the loop over `Numbers(start, end)` ends exactly when start <= end |
| NumberSequence.FillVector | 01.NumberSequence.cpp:74-77 | filling a vector from the range gives start..end-1 |
| NumberSequence.NumbersExamples | 01.NumberSequence.cpp:66-77 | `Numbers(7, 10)` gives 7, 8, 9 and `Numbers(3, 5)` gives 3, 4 |
| UpperView.ToUpperSpec | 02.Wrapper.cpp:23-36 | upper-casing changes exactly the lower-case letters, to their capitals, is idempotent and produces no lower-case letter |
| UpperView.PreInc | 02.Wrapper.cpp:47-51 | prefix increment never compares equal to the cursor it came from |
| UpperView.EqualityLaws | 02.Wrapper.cpp:37 | `==` is an equivalence, increments preserve and reflect it, `begin()` equals `end()` exactly for the empty string, and stepping from the last character reaches `end()` |
| UpperView.PostIncSpec | 02.Wrapper.cpp:40-51 | the holder from postfix increment reads the character the cursor was on, upper-cased; the cursor moves one character |
| UpperView.CollectUpper | 02.Wrapper.cpp:36-51 | iterating between two cursors yields one upper-cased character per position |
| UpperView.Collect | 02.Wrapper.cpp:36-51 | iterating between two cursors yields as many characters as positions lie between them |
| UpperView.ViewSpec | 02.Wrapper.cpp:58-60 | `begin()` to `end()` reads the whole stored string upper-cased and contains no lower-case letter |
| UpperView.UpperExamples | 02.Wrapper.cpp:68-81 | "bAr" reads "BAR", its third character is 'R', and "abcdef" reads "ABCDEF" |
| ColonSep.TakeTokenSpec | 03.Non-1-1.cpp:40-46 | the first loop takes the longest colon-free prefix: the input is that token followed by the rest, and a ':' follows unless the token is everything |
| ColonSep.SkipColonsSpec | 03.Non-1-1.cpp:47-49 | the second loop drops a run of colons and leaves input that does not start with ':' |
| ColonSep.ReadItemSplit | 03.Non-1-1.cpp:37-53 | on input not starting with ':', the input splits into a non-empty colon-free token, a run of colons, and a rest not starting with ':' |
| ColonSep.NextItemSpec | 03.Non-1-1.cpp:30-53 | one read gives the end marker exactly when the input is empty or starts with ':'; otherwise a non-empty colon-free token and a strictly shorter rest |
| ColonSep.ReadItemLoop | 03.Non-1-1.cpp:37-53 | the two loops with an index compute the same token and rest as the recursive model |
| ColonSep.Make | 03.Non-1-1.cpp:63-68 | a fresh iterator is well formed and is at the end exactly when the input is empty or starts with ':' |
| ColonSep.PreInc | 03.Non-1-1.cpp:85-89 | prefix increment keeps the iterator well formed, reaches the end exactly when the remaining input is empty or starts with ':', and otherwise consumes input |
| ColonSep.EqualityIgnoresTokens | 03.Non-1-1.cpp:71-75 | `==` is an equivalence that looks only at the end flag: any two iterators not at the end are equal, even `begin()` of "a" and of "b", which read different tokens; an iterator equals `end()` exactly when it is at the end |
| ColonSep.PostIncAsWrittenReturnsAdvanced | 03.Non-1-1.cpp:78-83 | as written, postfix increment returns an iterator identical to the advanced one, holding the next token, not the current |
| ColonSep.PostIncSpec | 03.Non-1-1.cpp:78-89 | corrected, postfix increment returns the iterator before the step, and advances like prefix increment |
| ColonSep.PostIncExample | 03.Non-1-1.cpp:78-89 | on "aa:foo" the first token is "aa"; postfix increment returns an iterator reading "foo" as written and "aa" corrected |
| ColonSep.RunsStep | 03.Non-1-1.cpp:37-53 | a token, a run of colons and a rest split into the token followed by the rest's runs |
| ColonSep.CollectIsRuns | 03.Non-1-1.cpp:63-100 | iterating from `begin()` to `end()` yields the maximal colon-free runs of the input |
| ColonSep.TokensSpec | 03.Non-1-1.cpp:98-114 | the tokens of a string are its colon-free runs, except that input starting with ':' yields none |
| ColonSep.Tokens | 03.Non-1-1.cpp:107-110 | every token read from a string is non-empty and colon-free |
| ColonSep.TokensWellFormed | 03.Non-1-1.cpp:50-68 | every token handed out is non-empty and colon-free |
| ColonSep.TokensExamples | 03.Non-1-1.cpp:107-114 | "aa:foo::x" gives "aa", "foo", "x"; the empty string and ":x" give nothing |
| PostInc.PreIncSpec | 04.PostInc.cpp:68-91 | prefix increment fails with the past-the-end message exactly on the end iterator; otherwise it adds one to its own range, touches no other range, and becomes the end exactly when the end is reached |
| PostInc.Begin | 04.PostInc.cpp:121 | `begin()` is never the end iterator, even on a range already at its end |
| PostInc.EqualityLaws | 04.PostInc.cpp:100-103 | `==` is an equivalence, `begin()` never equals `end()`, and an iterator equals `end()` exactly when it refers to no range |
| PostInc.CheckDone | 04.PostInc.cpp:68-72 | the iterator becomes the end exactly when its range is at its end, and is otherwise unchanged |
| PostInc.PreInc | 04.PostInc.cpp:84-91 | prefix increment fails exactly on the end iterator; otherwise it keeps the number of ranges and leaves a valid iterator |
| PostInc.PostIncAsWrittenReadsNewValue | 04.PostInc.cpp:93-98 | as written, the copy returned by postfix increment shares the range, so it reads the incremented value |
| PostInc.PostIncAsWritten | 04.PostInc.cpp:93-98 | as written, postfix increment fails exactly on the end iterator; otherwise it returns the very iterator it was given, still referring to the shared range |
| PostInc.PostInc | 04.PostInc.cpp:55-66 | corrected, postfix increment fails exactly on the end iterator; otherwise the returned `postinc_return` holds the value before the step |
| PostInc.PostIncSpec | 04.PostInc.cpp:55-98 | returning a `postinc_return` holding the old value gives the value before the increment, and moves like prefix increment |
| PostInc.RangeTo | 04.PostInc.cpp:135-139 | `range(to)` counts from 0 to `to`, and is at its end from the start exactly when to <= 0 |
| PostInc.RangeFromTo | 04.PostInc.cpp:141-147 | `range(from, to)` fails with "Cannot count down" exactly when to <= from, and otherwise counts from `from` to `to` without being at its end |
| PostInc.Collect | 04.PostInc.cpp:160-161 | iterating keeps the number of ranges and yields nothing exactly when it starts from the end iterator |
| PostInc.CollectSpec | 04.PostInc.cpp:121-162 | iterating from `begin()` yields current..end-1 and leaves the shared value at end; a range at or past its end still yields its current value once; no other range changes |
| PostInc.BeginChecked | 04.PostInc.cpp:121 | the checking `begin()` gives the end iterator exactly when the range is at its end |
| PostInc.CollectCheckedSpec | 04.PostInc.cpp:68-121 | with `begin()` checking for the end, iteration yields current..end-1 and nothing for a range at its end |
| PostInc.PostIncExamples | 04.PostInc.cpp:135-164 | `range(0, 10)` yields ten values ending in 9 and leaves `*begin()` at 10, not 0; `range(0)` yields one 0; `range(5, 5)` throws |

## Left out

- The segmented, parallel `copy` and `segmented_array` (05.Copy.cpp:183-249) are not part of this model: they are an unfinished extension point that no test reaches.
- The global, unconstrained `copy` (05.Copy.cpp:40-50) has the same body as `Concept::copy`, so it is modelled by the same `Algorithms.Copy`.
- `max_element` and `upper_bound` are modelled over `int` elements with `>` and `<=` on integers, the only element type the program uses with them.
- `upper_bound` is modelled on array positions; on node pointers it accepts, `i + n` is pointer arithmetic outside any node pool.
- UpperBound.UpperBoundAsWritten: the non-terminating recursion is modelled with a fuel bound; running out of fuel answers None.
- NumberSequence.Collect: modelled with a fuel bound, since a counter started above its end never stops; `int` overflow, which would be undefined behaviour, is not modelled.
- FastCopy.Layout: the element width is fixed at the 4 bytes of `int`, the type the fast path is called with; byte values are abstract (which element, which byte of it).
- UpperView.ToUpper: only the C locale's ASCII mapping; other locales are not modelled.
- Dereferencing the end iterator, or a null or past-the-end pointer, is undefined behaviour in the program and is excluded by preconditions.
- The `-> value_type_t<T> const&` checks of `Readable` and `Writable` are modelled as direct reference binding up to cv-qualification; other implicit conversions are not modelled.
- `iterator_traits` typedefs (`value_type`, `iterator_category`, …) of the adaptor iterators, `operator->` in 04.PostInc.cpp, and `operator!=` (the negation of `==`) are not modelled separately.
- Console output, gtest macros and `main` are I/O; their assertions appear as example lemmas.
- FastCopy.FastCopyMatchesGeneric: stated for a source and a destination in separate arrays; within one array, FastCopy.CopyWithinForward covers a destination that starts at or before the source, and FastCopy.OverlapExample shows that the element-by-element copy and the block move differ when the destination starts inside the source.
- FastCopy.AsWrittenReturnDiffers: likewise stated for separate arrays only.
- Dispatch.FillCall: binding the value argument and assigning it through the position are modelled as exact matches up to qualifiers, plus conversions between arithmetic types; other standard and user-defined conversions are not modelled.
- Algorithms.Copy: the source and the destination are separate stores, so a copy between two ranges of one array or one node pool is not covered by Algorithms.CopyWrites, Algorithms.CopyFrame or Algorithms.CopyContents; FastCopy.CopyWithin models the element-by-element copy within one array.
- PostInc.PreInc: the shared counter is a mathematical integer; the `int` overflow of `current_++` at INT_MAX, reachable when `begin()` is taken on a range already at its end, is undefined behaviour and is not modelled.
- Copy and default construction, destruction and assignment of positions are always possible in the model (positions are values).

## Findings

| source | as written | input that shows it | evidently intended | confidence | as-written member | corrected member |
|---|---|---|---|---|---|---|
| 05.Copy.cpp:274 | the fast `copy` returns `out_end` | 5 ints into 7: returns position 7 | return `out + count`, the position after the last element written, like the generic body | high; not executed | FastCopy.FastCopyAsWritten (FastCopy.AsWrittenReturnDiffers, FastCopy.FastCopyExample) | FastCopy.FastCopy (FastCopy.FastCopyMatchesGeneric) |
| 05.Copy.cpp:272-273 | `memmove` is given the element count as its byte count | 5 ints into 7: only 5 of 20 bytes move, element 3 stays 0 | pass `count * sizeof(value_type)` | high; not executed | FastCopy.FastCopyBytesAsWritten (FastCopy.AsWrittenMovesTooFewBytes, FastCopy.MemmoveCountExample) | FastCopy.FastCopyBytes (FastCopy.LayoutTransfer) |
| 05.Copy.cpp:327 | the left step recurses on `[it, mid + 1)` | {1,3,3,5,7} with x = 3: the range shrinks to [3, 5), length 2, and stays there | recurse on `[it, mid)` | high; not executed | UpperBound.UpperBoundAsWritten (UpperBound.AsWrittenStuck, UpperBound.AsWrittenTrace) | UpperBound.UpperBound (UpperBound.UpperBoundSpec) |
| 05.Copy.cpp:173-181 | `ContiguousIterator` needs `pointer_from`, which is never declared | `int*` is not contiguous, so the fast overload never applies | declare `pointer_from` for array pointers, naming `value_type_t<T> const*` as its return type at line 178 | high; not executed | Capabilities.Holds (Capabilities.ContiguousNever, Dispatch.ChooseCopyAsWrittenSpec) | Capabilities.HoldsRefined (Capabilities.RefinedContiguousIff, Dispatch.ChooseCopySpec) |
| 05.Copy.cpp:268-269 | the type tests are applied to the trait structs `value_type<In>`, not `value_type_t<In>` | `int const*` to `int*` fails `is_same_v`; any class passes `is_trivially_copyable_v` | test `value_type_t<In>` and `value_type_t<Out>` | medium; not executed | Dispatch.PassesAsWritten (Dispatch.AsWrittenTestsMissTheValueType) | Dispatch.Passes (Dispatch.FastViableIff) |
| 05.Copy.cpp:281 | `fill` takes its value as `value_type<It> const&`, a reference to the trait struct | `fill(a, a + 5, 0)` on `int a[5]`: `0` cannot initialise a `value_type<int*> const&`, and no `int` can be assigned from that struct | take `value_type_t<It> const&` | high; not executed | Dispatch.FillCallAsWritten (Dispatch.FillNeverCallableAsWritten, Dispatch.FillExamples) | Dispatch.FillCall (Dispatch.FillCallableWithElement, Dispatch.FillExamples) |
| 05.Copy.cpp:155-170 | `RandomAccessIterator` does not refine `BidirectionalIterator` | `node<int>*` satisfies it, so `upper_bound` accepts linked lists | require `BidirectionalIterator` in `RandomAccessIterator` | medium; not executed | Capabilities.RandomAccessConcept (Capabilities.NodePointerCapabilities, Dispatch.AlgorithmAcceptance) | Capabilities.RefinedRandomAccessConcept (Capabilities.RefinedRandomAccessIsBidirectional, Dispatch.RefinedUpperBoundRejectsNodes) |
| 03.Non-1-1.cpp:80 | postfix `++` builds the returned copy from the input after the current token | on "aa:foo", `*it++` reads "foo" | return a copy of the iterator before the step | high; not executed | ColonSep.PostIncAsWritten (ColonSep.PostIncAsWrittenReturnsAdvanced, ColonSep.PostIncExample) | ColonSep.PostInc (ColonSep.PostIncSpec) |
| 04.PostInc.cpp:93-98 | postfix `++` returns a copy sharing the range, and `postinc_return` is unused | `*it++` reads the incremented value | return a `postinc_return` holding the old value | high; not executed | PostInc.PostIncAsWritten (PostInc.PostIncAsWrittenReadsNewValue) | PostInc.PostInc (PostInc.PostIncSpec) |
| 04.PostInc.cpp:121 | `begin()` does not check for the end | `range(0)` yields one 0 | begin at the end iterator when the range is at its end | medium; not executed | PostInc.Begin (PostInc.CollectSpec, PostInc.PostIncExamples) | PostInc.BeginChecked (PostInc.CollectCheckedSpec) |
