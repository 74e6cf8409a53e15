# cpp-ref core, modelled in Dafny

The repository is a C++ course reference. Most of it is short snippets. The
parts with real logic are modelled here, one Dafny module per source file:

- a coarse-grained linked stack;
- two counters that shard or lock a count;
- a list guarded by a lock;
- two binary search trees, one with owned child links and one with raw pointers;
- the engine of an animal-guessing game;
- two Pascal's-triangle programs;
- call-counting wrappers, a running-sum functor and live-object counters;
- Euclid's `gcd` in its several spellings.

Code that updates fields is modelled as Dafny classes with `modifies` clauses.
Each such method is proved against a value-level specification:

- the stack's contents as a sequence;
- a tree as a `Tree` datatype with its key multiset;
- the bucket counts' sum;
- the set of live objects.

Pure code (`gcd`, `factorial`, the search-tree recursions, the string order of
`std::map`) is modelled as functions with lemmas. Locks make each operation
one atomic step, so every call is modelled as a sequential step.

Files:

| file | models |
|---|---|
| `machine_words.dfy` | the C++ integer widths used (`int`, `long long`, `size_t`) |
| `course_stack.dfy` | `ex_6_LockFreeStack_austin.h` |
| `sharded_counter.dfy` | both `DistributedCounter`s of `5_cache_conscious_programming.cpp` |
| `locks.dfy` | `5_locks.cpp` |
| `search_tree.dfy` | the tree value both tree headers are proved against |
| `btree_austin.dfy` | `ex_5_btree_austin.h` |
| `btree_orig.dfy` | `ex_5_btree_orig.h` |
| `string_order.dfy` | `std::string`'s `operator<`, the order of `std::map` and `std::set` keys |
| `animal_game.dfy` | `ex_3_animal_game.cpp` |
| `binomial.dfy` | Pascal's rule, shared by both triangle programs |
| `pascal_oo.dfy` | `ex_2_pascal_oo.cpp` |
| `inline_friend.dfy` | `3_inline_friend.cpp` |
| `call_counters.dfy` | `ex_5_counter_austin.cpp` |
| `functors.dfy` | `Accumulator` of `3_classes_functors.cpp` and `4_callables_functors.cpp` |
| `static_members.dfy` | `3_classes_members_static.cpp` |
| `gcd.dfy` | `gcd` and `square` of `5_constexpr.cpp`, `5_SFINAE_enable_if.cpp`, `5_templates_w_concepts.cpp`, `checklist.cpp` |

On an empty stack `pop` and `top` return a default-constructed `T`
(`std::make_unique<T>()`, ex_6_LockFreeStack_austin.h:116-118 and 130-131);
`CourseStack` is given that default value when constructed.

## Model

| member | source | states |
|---|---|---|
| CourseStackModel.Node.Leaf | ref/ref/ref/ex_6_LockFreeStack_austin.h:45-48 | a one-payload node has no successor and its chain is just that payload |
| CourseStackModel.Node.Link | ref/ref/ref/ex_6_LockFreeStack_austin.h:50-53 | a linked node's chain is its payload followed by the successor's chain |
| CourseStackModel.CourseStack.constructor | ref/ref/ref/ex_6_LockFreeStack_austin.h:93-95 | a new stack has a null head and holds nothing; `count` is 0 |
| CourseStackModel.CourseStack.FromChain | ref/ref/ref/ex_6_LockFreeStack_austin.h:96-98 | a stack built on a chain holds exactly that chain |
| CourseStackModel.CourseStack.Push | ref/ref/ref/ex_6_LockFreeStack_austin.h:100-109 | the new head holds `x` and its successor is the old head, so the contents are `x` followed by the old contents; `count` stays 0 |
| CourseStackModel.CourseStack.Pop | ref/ref/ref/ex_6_LockFreeStack_austin.h:111-126 | on a non-empty stack: returns the top payload and leaves the old tail; on an empty stack: returns the default `T` and stays empty |
| CourseStackModel.CourseStack.Top | ref/ref/ref/ex_6_LockFreeStack_austin.h:128-133 | the top payload, or the default `T` when empty; the stack is not changed |
| CourseStackModel.CourseStack.IsEmpty | ref/ref/ref/ex_6_LockFreeStack_austin.h:135-137 | true exactly when `head` is null, which is exactly when the stack holds nothing |
| CourseStackModel.CourseStack.Size | ref/ref/ref/ex_6_LockFreeStack_austin.h:139-158 | the walk counts exactly the nodes reachable from `head`; 0 exactly when `head` is null |
| CourseStackModel.PushThenPop | ref/ref/ref/ex_6_LockFreeStack_austin.h:100-126 | push then pop returns the pushed value and restores the previous contents (LIFO) |
| CourseStackModel.PushThreePopThree | ref/ref/ref/ex_6_LockFreeStack_austin.h:100-137 | pushing 1, 2, 3 pops 3, 2, 1 and empties the stack |
| CourseStackModel.EmptyStackBehaviour | ref/ref/ref/ex_6_LockFreeStack_austin.h:116-118 | on an empty stack `pop` and `top` give the default value, `isEmpty` holds and `size` is 0 |
| CourseStackModel.PushAllThenDrain | ref/ref/ref/ex_6_LockFreeStack_austin.h:100-126 | pushing a sequence and popping until empty gives it back reversed, the same multiset |
| CourseStackModel.ReverseMultiset | ref/ref/ref/ex_6_LockFreeStack_austin.h:111-126 | draining in LIFO order loses and duplicates nothing |
| ShardedCounter.DistributedCounter.constructor | ref/ref/ref/5_cache_conscious_programming.cpp:54-55 | exactly 128 buckets, all 0, for a counter that has counted nothing |
| ShardedCounter.DistributedCounter.BucketOf | ref/ref/ref/5_cache_conscious_programming.cpp:60 | the bucket chosen for a thread hash is always one of the 128, congruent to the hash |
| ShardedCounter.DistributedCounter.Increment | ref/ref/ref/5_cache_conscious_programming.cpp:59-63 | adds one (as `size_t`) to the caller's bucket, leaves every other bucket alone, and keeps the buckets' sum equal to the number of increments (mod 2^64) |
| ShardedCounter.DistributedCounter.IncrementPostfix | ref/ref/ref/5_cache_conscious_programming.cpp:65-67 | the same effect as prefix `++` |
| ShardedCounter.DistributedCounter.Get | ref/ref/ref/5_cache_conscious_programming.cpp:69-72 | the fold from 0 is the sum of the buckets, which is the number of increments (mod 2^64); nothing changes |
| ShardedCounter.SumUpdate | ref/ref/ref/5_cache_conscious_programming.cpp:62 | changing one bucket changes the sum by exactly the difference |
| ShardedCounter.CountIncrements | ref/ref/ref/5_cache_conscious_programming.cpp:55-72 | from a fresh counter, N increments in any buckets, prefix or postfix, make `get` return N |
| CoarseLocks.SharedLists.constructor | ref/ref/ref/5_locks.cpp:27 | `some_list` and `list1` start empty |
| CoarseLocks.SharedLists.AddToList | ref/ref/ref/5_locks.cpp:30-37 | appends the value to `some_list`, keeping the earlier elements in order; `list1` is unchanged |
| CoarseLocks.SharedLists.ListContains | ref/ref/ref/5_locks.cpp:39-42 | true exactly when the value occurs in `some_list`; nothing changes |
| CoarseLocks.AddThenContains | ref/ref/ref/5_locks.cpp:30-42 | after `add_to_list(v)`, `list_contains(v)` holds |
| CoarseLocks.LockedCounter.constructor | ref/ref/ref/5_locks.cpp:129 | a fresh counter holds 0 |
| CoarseLocks.LockedCounter.Increment | ref/ref/ref/5_locks.cpp:131-134 | adds exactly 1 |
| CoarseLocks.LockedCounter.IncrementPostfix | ref/ref/ref/5_locks.cpp:135-138 | adds exactly 1 |
| CoarseLocks.LockedCounter.Get | ref/ref/ref/5_locks.cpp:140-143 | the current count; nothing changes |
| CoarseLocks.CountTo | ref/ref/ref/5_locks.cpp:129-143 | a fresh counter reads 0, and after n increments in any mix of prefix and postfix it reads n |
| SearchTree.Insert | ref/ref/ref/ex_5_btree_austin.h:141-166 | an insertion never leaves the tree empty, makes a lone leaf in an empty tree, and keeps the root |
| SearchTree.InsertAddsOneKey | ref/ref/ref/ex_5_btree_austin.h:141-166 | the key multiset gains exactly `key`, and the size grows by one |
| SearchTree.InsertKeepsBst | ref/ref/ref/ex_5_btree_austin.h:141-166 | insertion keeps left < key <= right at every node (duplicates go right) |
| SearchTree.Search | ref/ref/ref/ex_5_btree_austin.h:168-176 | the result is empty or a subtree rooted at `key` |
| SearchTree.SearchSound | ref/ref/ref/ex_5_btree_austin.h:168-176 | whatever `search` finds holds a key of the tree |
| SearchTree.SearchComplete | ref/ref/ref/ex_5_btree_austin.h:168-176 | in an ordered tree, `search` finds `key` exactly when the tree holds it |
| SearchTree.InsertThenSearch | ref/ref/ref/ex_5_btree_austin.h:118-176 | after inserting `key` into any tree, ordered or not, `search(key)` finds it |
| SearchTree.PostOrderVisitsEachNode | ref/ref/ref/ex_5_btree_orig.h:45-52 | the deletion order visits every node once: as many entries as nodes, the same key multiset |
| SearchTree.CopyAsWritten | ref/ref/ref/ex_5_btree_austin.h:65-82 | the copy constructor as written keeps the key, puts the right subtree's copy on the left, and leaves the right empty |
| SearchTree.CopyAsWrittenKeepsOnlyKeys | ref/ref/ref/ex_5_btree_austin.h:65-82 | the as-written copy holds no key the original lacks |
| SearchTree.CopyAsWrittenLosesLeftChild | ref/ref/ref/ex_5_btree_austin.h:69-81 | copying a root with only a left child loses that child |
| SearchTree.CopyAsWrittenBreaksOrdering | ref/ref/ref/ex_5_btree_austin.h:76-78 | copying a root with only a right child moves it left and breaks the ordering |
| BtreeAustin.Node.Leaf | ref/ref/ref/ex_5_btree_austin.h:148-151 | a new leaf holds `key` and has no children |
| BtreeAustin.Node.CopyAsWritten | ref/ref/ref/ex_5_btree_austin.h:65-82 | the heap copy made as written spells exactly `SearchTree.CopyAsWritten` of the original |
| BtreeAustin.Node.Copy | ref/ref/ref/ex_5_btree_austin.h:65-82 | the corrected deep copy spells the same tree in fresh nodes |
| BtreeAustin.Node.Insert | ref/ref/ref/ex_5_btree_austin.h:141-166 | the private `insert` turns the subtree into `SearchTree.Insert` of it, allocating only new nodes |
| BtreeAustin.Node.SearchFrom | ref/ref/ref/ex_5_btree_austin.h:168-176 | the private `search` returns null exactly when `SearchTree.Search` finds nothing, and otherwise a node below holding `key` |
| BtreeAustin.Node.AssignAsWritten | ref/ref/ref/ex_5_btree_austin.h:84-90 | the node assignment as written leaves the target unchanged |
| BtreeAustin.Node.Assign | ref/ref/ref/ex_5_btree_austin.h:84-90 | the corrected node assignment makes the target spell the source's tree |
| BtreeAustin.Btree.constructor | ref/ref/ref/ex_5_btree_austin.h:98 | a new tree is empty |
| BtreeAustin.Btree.CopyOfAsWritten | ref/ref/ref/ex_5_btree_austin.h:100-108 | the copy constructor as written copies the root through `Node`'s copy constructor as written, so the copy spells `SearchTree.CopyAsWritten` of the original |
| BtreeAustin.Btree.CopyOf | ref/ref/ref/ex_5_btree_austin.h:100-108 | the corrected copy constructor holds the same tree in fresh nodes |
| BtreeAustin.Btree.AssignAsWritten | ref/ref/ref/ex_5_btree_austin.h:110-116 | the tree assignment as written leaves the target unchanged |
| BtreeAustin.Btree.Assign | ref/ref/ref/ex_5_btree_austin.h:110-116 | the corrected tree assignment makes the target hold the source's tree, in fresh nodes unless it is a self-assignment |
| BtreeAustin.Btree.Insert | ref/ref/ref/ex_5_btree_austin.h:118-128 | a root leaf in an empty tree, otherwise the private insert; the tree becomes `SearchTree.Insert` of it |
| BtreeAustin.Btree.Search | ref/ref/ref/ex_5_btree_austin.h:130-137 | a node is found exactly when `SearchTree.Search` finds a subtree; it holds `key`, which is in the tree; in an ordered tree a node is found exactly when `key` is in it |
| BtreeAustin.InsertKeepsOrder | ref/ref/ref/ex_5_btree_austin.h:118-176 | `insert` keeps an ordered tree ordered and adds `key` to its multiset; `search` then finds it in any tree |
| BtreeAustin.CopyScenario | ref/ref/ref/ex_5_btree_austin.h:100-108 | copying a tree with root 2 and left child 1: as written the copy does not find 1, as intended it does |
| BtreeAustin.AssignmentScenario | ref/ref/ref/ex_5_btree_austin.h:110-116 | assigning a tree holding 5 to an empty tree: as written nothing is found, as intended 5 is |
| BtreeOrig.SearchFromNullable | ref/ref/ref/ex_5_btree_orig.h:79-90 | the private `search`, null on a null leaf, finds a node exactly when `SearchTree.Search` does, and it holds `key` |
| BtreeOrig.SearchesAgree | ref/ref/ref/ex_5_btree_orig.h:79-90 | this file's `search` returns the same node as the one of `ex_5_btree_austin.h` |
| BtreeOrig.DestroyFrom | ref/ref/ref/ex_5_btree_orig.h:45-52 | deletes each node below `leaf` exactly once, in post-order, the parent last |
| BtreeOrig.OrigTree.constructor | ref/ref/ref/ex_5_btree_orig.h:19-21 | a new tree has a null root |
| BtreeOrig.OrigTree.Insert | ref/ref/ref/ex_5_btree_orig.h:26-36 | on a tree not yet destroyed: a root leaf in an empty tree, otherwise the private insert; the tree becomes `SearchTree.Insert` of it |
| BtreeOrig.OrigTree.Search | ref/ref/ref/ex_5_btree_orig.h:37-39 | on a tree not yet destroyed: a node is found exactly when `SearchTree.Search` finds a subtree, and it holds `key`; in an ordered tree a node is found exactly when `key` is in it |
| BtreeOrig.OrigTree.DestroyTree | ref/ref/ref/ex_5_btree_orig.h:40-42 | deletes as many distinct nodes as the tree has, all of them nodes of the tree, holding its keys in post-order, the root among them; `root` keeps pointing at the deleted root, so the tree is destroyed and no operation, not even a second `destroy_tree`, may follow |
| BtreeOrig.BuildTree | ref/ref/ref/ex_5_btree_orig.h:26-78 | inserting keys into a new tree gives an ordered tree with one node per key |
| BtreeOrig.InsertSearchDestroy | ref/ref/ref/ex_5_btree_orig.h:19-90 | after `insert(k)`, `search(k)` finds it, and destroying the tree deletes every node inserted |
| StringOrder.LexLessIsFirstDifference | ref/ref/ref/ex_3_animal_game.cpp:74-75 | the order of `std::string` keys is the first-difference order (a proper prefix first) |
| StringOrder.LexLessTransitive | ref/ref/ref/ex_3_animal_game.cpp:74-75 | the key order is transitive |
| StringOrder.LexLessTotal | ref/ref/ref/ex_3_animal_game.cpp:74-75 | any two different keys are ordered |
| StringOrder.LexLessAsymmetric | ref/ref/ref/ex_3_animal_game.cpp:74-75 | the key order is asymmetric |
| StringOrder.LexLessIrreflexive | ref/ref/ref/ex_3_animal_game.cpp:74-75 | no key comes before itself |
| StringOrder.Least | ref/ref/ref/ex_3_animal_game.cpp:126-127 | `*begin()` of a non-empty set is a member that comes before every other member |
| AnimalGame.SolutionAnswers.AddResponse | ref/ref/ref/ex_3_animal_game.cpp:17-19 | one response is appended and the earlier ones are kept |
| AnimalGame.Question.GetAnimalsSatisfying | ref/ref/ref/ex_3_animal_game.cpp:31-43 | exactly the animals whose stored answer is the one asked for, each once, in ascending key order |
| AnimalGame.Question.TrimOutInvalidAnimals | ref/ref/ref/ex_3_animal_game.cpp:48-64 | the candidates whose stored answer matches; candidates the question has no answer for are dropped |
| AnimalGame.Question.AddAnswer | ref/ref/ref/ex_3_animal_game.cpp:66-68 | the animal's answer is set, overwriting an old one; the text and other animals' answers stay |
| AnimalGame.AddAnswerMovesAnimal | ref/ref/ref/ex_3_animal_game.cpp:66-68 | the animal joins those giving the recorded answer and leaves those giving the other |
| AnimalGame.AiEngine.constructor | ref/ref/ref/ex_3_animal_game.cpp:81-85 | all known animals are candidates, no responses, first question next |
| AnimalGame.AiEngine.ResetAsWritten | ref/ref/ref/ex_3_animal_game.cpp:88-92 | as written: all animals are candidates again and `qIdx` is 0, but the old responses are kept |
| AnimalGame.AiEngine.Reset | ref/ref/ref/ex_3_animal_game.cpp:88-92 | as intended: the responses are also cleared |
| AnimalGame.AiEngine.InternalizeSoln | ref/ref/ref/ex_3_animal_game.cpp:98-115 | needs a response per question; every question learns the animal's answer from its response, and one new question that the animal satisfies is appended; the animal becomes known |
| AnimalGame.AiEngine.Guess | ref/ref/ref/ex_3_animal_game.cpp:119-133 | the least candidate, or the least known animal when no candidate is left; some animal must be known |
| AnimalGame.AiEngine.NumQuestions | ref/ref/ref/ex_3_animal_game.cpp:136 | the number of stored questions |
| AnimalGame.AiEngine.AskQuestionStep | ref/ref/ref/ex_3_animal_game.cpp:158-170 | records the response, narrows the candidates through the current question, and advances `qIdx` unless it is at the last question |
| AnimalGame.OpeningGuesses | ref/ref/ref/ex_3_animal_game.cpp:177-182 | with the opening question the rideable animals are ["horse"], and a yes gives the guess "horse", a no "swan" |
| AnimalGame.LearnCamel | ref/ref/ref/ex_3_animal_game.cpp:185-213 | a lost first game leaves one response and two questions |
| AnimalGame.ResetScenario | ref/ref/ref/ex_3_animal_game.cpp:88-92 | in a second game, `reset` as written makes the engine record a duck as rideable although the player said no; the intended `reset` records it as not rideable |
| Binomial.BinomOutside | ref/ref/ref/3_inline_friend.cpp:39-49 | Pascal's rule is 0 outside the triangle |
| Binomial.BinomDiagonal | ref/ref/ref/3_inline_friend.cpp:39-49 | the last entry of every row is 1 |
| Binomial.BinomPositive | ref/ref/ref/ex_2_pascal_oo.cpp:18-20 | every entry inside the triangle is at least 1 |
| Binomial.RowValues7 | ref/ref/ref/ex_2_pascal_oo.cpp:108-116 | the documented rows up to 1 7 21 35 35 21 7 1 (RowValues0 to RowValues6 give the rows above it) |
| Binomial.BinomFitsInInt | ref/ref/ref/3_inline_friend.cpp:42-45 | every entry of rows 0 to 33 fits in an `int`, so the sums `addRow` computes for a triangle of at most 34 rows do not overflow |
| PascalOO.Factorial | ref/ref/ref/ex_2_pascal_oo.cpp:9-16 | every factorial is at least 1 |
| PascalOO.FactorialSplit | ref/ref/ref/ex_2_pascal_oo.cpp:18-20 | n! is C(n, k) * k! * (n-k)!, so the division in `nChooseK` is exact |
| PascalOO.NChooseK | ref/ref/ref/ex_2_pascal_oo.cpp:18-20 | `nChooseK(n, k)` is the entry of Pascal's rule (the factorial quotient is exact) |
| PascalOO.FactorialMonotone | ref/ref/ref/ex_2_pascal_oo.cpp:9-16 | factorials grow with their argument |
| PascalOO.FactorialsFitInInt | ref/ref/ref/ex_2_pascal_oo.cpp:151 | with 13 rows every factorial and denominator fits in a 32-bit `int`, and 13! would not |
| PascalOO.PascalRow.Empty | ref/ref/ref/ex_2_pascal_oo.cpp:36 | the default row has no terms |
| PascalOO.PascalRow.Nth | ref/ref/ref/ex_2_pascal_oo.cpp:30-35 | row `nth` (at most 13, where every factorial fits in an `int`) holds `nth` terms, term k being `nChooseK(nth-1, k)`; a row number below 1 gives no terms |
| PascalOO.PascalRow.TermsAsInts | ref/ref/ref/ex_2_pascal_oo.cpp:38-40 | the stored terms, unchanged |
| PascalOO.PascalRow.Size | ref/ref/ref/ex_2_pascal_oo.cpp:57-59 | the number of terms |
| PascalOO.RowIsBinomial | ref/ref/ref/ex_2_pascal_oo.cpp:30-35 | a row's terms are Pascal's rule, the first and last being 1 |
| PascalOO.PascalTriangle.constructor | ref/ref/ref/ex_2_pascal_oo.cpp:66-72 | `nRows` rows (at most 13, the program's `NUM_ROWS`), row i holding the i+1 entries of Pascal's rule |
| InlineFriend.DecimalDigits | ref/ref/ref/3_inline_friend.cpp:23-27 | the digits written for a natural: at least one, all decimal, as many as its size between powers of ten says |
| InlineFriend.DecimalDigitsRoundTrip | ref/ref/ref/3_inline_friend.cpp:23-27 | reading the written digits back gives the number |
| InlineFriend.NumDigits | ref/ref/ref/3_inline_friend.cpp:23-27 | the text length: the digit count for a natural, one more (the sign) for a negative number |
| InlineFriend.AdjacentSumsIsNextRow | ref/ref/ref/3_inline_friend.cpp:39-49 | the new row is one longer, keeps the first and last entries, has each interior entry the sum of the two above, and is the next row of Pascal's rule |
| InlineFriend.AddRowKeepsTriangle | ref/ref/ref/3_inline_friend.cpp:39-49 | adding a row keeps every row i the i-th row of Pascal's rule |
| InlineFriend.TriangleFitsInInt | ref/ref/ref/3_inline_friend.cpp:42-45 | a triangle of at most 34 rows holds only `int` values |
| InlineFriend.MaxOf | ref/ref/ref/3_inline_friend.cpp:51-54 | the maximum is an entry and no entry exceeds it |
| InlineFriend.Triangle.AddRow | ref/ref/ref/3_inline_friend.cpp:39-49 | when every `int` sum `previous + current` is defined, the loop appends exactly the adjacent sums of the last row |
| InlineFriend.Triangle.MaxElement | ref/ref/ref/3_inline_friend.cpp:51-54 | an entry of the last row that no entry of it exceeds |
| InlineFriend.Triangle.CenteredInt | ref/ref/ref/3_inline_friend.cpp:56-61 | the decimal text behind spaces, padding by half (rounded down) of what the field leaves over |
| InlineFriend.Triangle.constructor | ref/ref/ref/3_inline_friend.cpp:78-86 | for at most 34 rows (row 34 would overflow an `int`): starts from [1] and holds n rows (one when n < 1), each a row of Pascal's rule with every entry an `int`; `eltSize` is the width of the largest entry |
| CallCounters.Counter.constructor | ref/ref/ref/ex_5_counter_austin.cpp:15-21 | counting is on and the count is 0 |
| CallCounters.Counter.Call | ref/ref/ref/ex_5_counter_austin.cpp:25-29 | the count grows by 1 exactly when counting is on; the result is the callable applied to the arguments |
| CallCounters.Counter.ToggleCounting | ref/ref/ref/ex_5_counter_austin.cpp:31-33 | counting flips; the count stays |
| CallCounters.CountedCallsBound | ref/ref/ref/ex_5_counter_austin.cpp:25-33 | a counter counts at most one per call, and every call when never toggled |
| CallCounters.ToggleTwiceRestores | ref/ref/ref/ex_5_counter_austin.cpp:31-33 | toggling twice is the identity |
| CallCounters.CountWithToggles | ref/ref/ref/ex_5_counter_austin.cpp:11-34 | every call returns the callable's result, and the count is the number of calls made while counting was on |
| CallCounters.ThreadSafeCounter.constructor | ref/ref/ref/ex_5_counter_austin.cpp:44-50 | the count starts at 0 |
| CallCounters.ThreadSafeCounter.Call | ref/ref/ref/ex_5_counter_austin.cpp:57-64 | the count grows by exactly 1 and the result is the callable applied to the arguments |
| CallCounters.ThreadSafeCounter.GetCount | ref/ref/ref/ex_5_counter_austin.cpp:66-69 | the current count; nothing changes |
| CallCounters.CountEveryCall | ref/ref/ref/ex_5_counter_austin.cpp:40-70 | after N calls `getCount` is N, and each call returned the callable's result |
| Functors.Accumulator.constructor | ref/ref/ref/3_classes_functors.cpp:46 | the total starts at 0 |
| Functors.Accumulator.Call | ref/ref/ref/3_classes_functors.cpp:42-45 | adds `j` to the total and returns the new total |
| Functors.RunningTotals | ref/ref/ref/4_callables_functors.cpp:12-18 | the k-th call returns the sum of the first k+1 arguments, and the total ends as the sum of all |
| Functors.DocumentedTrace | ref/ref/ref/3_classes_functors.cpp:53-57 | calls with 1, 2, 4 return 1, 3, 7 (the same trace is in 4_callables_functors.cpp:24-28) |
| StaticMembers.ObjectCounts.constructor | ref/ref/ref/3_classes_members_static.cpp:35 | both static counts start at 0 with no live objects |
| StaticMembers.ObjectCounts.MemUsed | ref/ref/ref/3_classes_members_static.cpp:46-48 | the count of the second class times the size of the first, so the number of live `CountedObject2`s |
| StaticMembers.CountedObject.constructor | ref/ref/ref/3_classes_members_static.cpp:27-29 | `objectCount` grows by 1 (as `size_t`), the object becomes live, and the other class's count is untouched |
| StaticMembers.CountedObject.Destroy | ref/ref/ref/3_classes_members_static.cpp:31-33 | `objectCount` drops by 1 and the object is no longer live; the count stays the number of live objects |
| StaticMembers.CountedObject2.constructor | ref/ref/ref/3_classes_members_static.cpp:43 | the second class's own count grows by 1; the first's is untouched |
| StaticMembers.CountedObject2.Destroy | ref/ref/ref/3_classes_members_static.cpp:44 | the second class's own count drops by 1; the first's is untouched |
| StaticMembers.Demonstration | ref/ref/ref/3_classes_members_static.cpp:54-63 | with two objects alive the count is 2 and `memUsed` is 2; both return to 0 when the objects are destroyed |
| Gcd.TruncDiv | ref/ref/ref/5_SFINAE_enable_if.cpp:49 | C++ division truncates toward zero: the quotient of the magnitudes, negative only for operands of different sign |
| Gcd.TruncRem | ref/ref/ref/5_constexpr.cpp:42 | C++ `%`: smaller than the divisor in magnitude, with the sign of the dividend |
| Gcd.TruncDivIsQuotient | ref/ref/ref/5_SFINAE_enable_if.cpp:49 | `a == b*(a/b) + a%b`, and `b*(a/b)` is the largest multiple of `b` not above `a` in magnitude |
| Gcd.RemBySubtraction | ref/ref/ref/5_templates_w_concepts.cpp:70 | `a - b*(a/b)` equals C++ `a % b` |
| Gcd.GcdRem | ref/ref/ref/5_constexpr.cpp:41-42 | the result is 0 exactly for gcd(0, 0), and non-negative for non-negative arguments |
| Gcd.GcdSub | ref/ref/ref/checklist.cpp:355-368 | the `a - b*(a/b)` spelling (checklist.cpp, both halves, 5_SFINAE_enable_if.cpp, 5_templates_w_concepts.cpp) computes the same as the `a % b` one on every pair |
| Gcd.StepKeepsDivisors | ref/ref/ref/5_constexpr.cpp:42 | one recursion step keeps the set of common divisors |
| Gcd.GcdIsGreatestCommonDivisor | ref/ref/ref/5_constexpr.cpp:41-42 | the result divides both arguments, and every common divisor divides it |
| Gcd.Square | ref/ref/ref/5_constexpr.cpp:68-70 | for an argument whose square fits in an `int`: non-negative, 0 only for 0, and at least the magnitude |
| Gcd.SquareFitsInInt | ref/ref/ref/5_constexpr.cpp:68-70 | `square` is defined exactly for arguments of magnitude at most 46340 |
| Gcd.DocumentedValues | ref/ref/ref/5_constexpr.cpp:44-71 | gcd(34, 55) is 1, gcd(4, 6) is 2 (5_SFINAE_enable_if.cpp:61) and square(3) is 9 |

## Left out

- Locks, `std::thread`, and the thread-id hash. Each locked operation is one atomic step. The thread's hash is a parameter of the sharded counter's `++`.
- The 256-byte `padding` of the second sharded counter carries no value, so one class models both versions.
- `isEmpty` and `size` of the stack take no lock. In a concurrent program they can race with `push` and `pop`; the model is sequential.
- The reader/writer `add_to_list` and `list_contains` of 5_locks.cpp redefine the coarse-grained ones. They append to and search `some_list`, never `list1`. They are modelled by the same two methods, and `list1` stays empty.
- All printing is left out:
  - every `operator<<`;
  - `printRow` and its loop in 3_inline_friend.cpp;
  - `drawSimple`, `drawFancy`, `toRowStr` and `termsAsStrings` in ex_2_pascal_oo.cpp.
- The `operator<<` of 3_inline_friend.cpp always prints 12 rows, so it needs a triangle of at least 12 rows. It is not modelled.
- Console input (`getUserAnimal`, the read loop of `AskQuestion`) and the animal game's `main`. The model takes the parsed yes/no answer as a parameter, and the scenarios play the game `main` plays.
- Deleting a node is modelled by returning the deleted nodes in order; memory itself is not modelled. `~btree` is `destroy_tree`.
- `node::repr` of ex_5_btree_orig.h does not compile and is not modelled.
- `Node::operator=` and `Btree::operator=` as written return a reference to a destroyed local. The model records only that the target is unchanged.
- The demonstration in 3_classes_members_static.cpp declares `c1` and `c2` twice in one scope, which does not compile. The model names the second pair `d1` and `d2`.
- The static counts are declared but never defined outside their classes. The model gives them the zero initial value of static storage.
- Floating point (the Matrix family, `pi`) and the account transfer of 5_locks.cpp are not part of this model.
- `Factorial` and `NChooseK` are over unbounded naturals. `FactorialsFitInInt` proves that the values the program uses (at most 12!) fit in an `int`.
- PascalOO.PascalRow.Nth requires a row number of at most 13. Past that `factorial` overflows an `int` (undefined behaviour), which is not modelled.
- PascalOO.PascalTriangle.constructor requires at most 13 rows, for the same `factorial` overflow.
- PascalOO.PascalTriangle.constructor takes a natural row count. A negative count converts to a huge `size_t` in `resize`, which throws; that failure is not modelled.
- InlineFriend.Triangle.constructor requires at most 34 rows. From 35 rows the source's `int` sums overflow (undefined behaviour), which is not modelled.
- InlineFriend.Triangle.AddRow requires that every entry of the new row fits in an `int`; an overflowing sum is not modelled.
- Functors.Accumulator.Call excludes calls whose 32-bit total would overflow (undefined behaviour in C++) rather than modelling a wrap.
- CallCounters.Counter.Call requires, when counting is on, that its `int` `count` is below the largest `int`. Counting past it is undefined behaviour and is not modelled. The callable's result is not bounded.
- CallCounters.ThreadSafeCounter.Call requires `count` below the largest `int` on every call, for the same reason.
- Gcd.Square requires that `x * x` fits in an `int`. For magnitudes above 46340 the source's product overflows (undefined behaviour), which is not modelled.
- CoarseLocks.LockedCounter.Increment excludes incrementing past the largest `long long` rather than modelling a wrap.
- Gcd.GcdRem and Gcd.GcdSub are modelled over unbounded integers. The one 32-bit case that differs, `INT_MIN % -1`, is undefined behaviour in C++ and is not modelled.
- The callable of `Counter` and `ThreadSafeCounter` is a pure Dafny function of one argument pack. A callable with side effects is not modelled.
- `currentQuestion` returns a copy of the question and is inlined into `AskQuestionStep`.

## Findings

| source | as written | input that shows it | evidently intended | confidence | as-written member | corrected member |
|---|---|---|---|---|---|---|
| ref/ref/ref/ex_5_btree_austin.h:76-81 | the `Node` copy constructor stores the copy of `that.right` (or null) in `left`, so the left subtree is lost and `right` stays empty | a root 2 with left child 1: the copy holds only 2; a root 1 with right child 2: the copy has 2 on the left of 1, breaking the ordering | copy `that.right` into `right` | high (not executed) | SearchTree.CopyAsWrittenLosesLeftChild | BtreeAustin.Node.Copy |
| ref/ref/ref/ex_5_btree_austin.h:100-108 | `Btree`'s copy constructor, modelled as written by BtreeAustin.Btree.CopyOfAsWritten, copies the root with `Node`'s faulty copy constructor, so a copied tree loses every left subtree | copying a tree with root 2 and left child 1: the copy no longer finds 1 | copy every subtree in place | high (not executed) | BtreeAustin.CopyScenario | BtreeAustin.Btree.CopyOf |
| ref/ref/ref/ex_5_btree_austin.h:110-116 | `Btree::operator=` builds the copy in a local, returns a reference to it and never changes `*this` | assigning a tree holding 5 to an empty tree: the target still finds nothing | make `*this` hold a copy of `that` | high (not executed) | BtreeAustin.AssignmentScenario | BtreeAustin.Btree.Assign |
| ref/ref/ref/ex_5_btree_austin.h:84-90 | `Node::operator=` likewise copies into a local and leaves `*this` unchanged | assigning any node holding a different key: the target keeps its old key and children | make `*this` hold a copy of `that` | high (not executed) | BtreeAustin.Node.AssignAsWritten | BtreeAustin.Node.Assign |
| ref/ref/ref/ex_3_animal_game.cpp:90 | `reset` declares a new local `solnAnswers` instead of clearing the member, so the responses of earlier games stay and `internalizeSoln` reads them | game 1 answers yes to "can you ride it?" and teaches "camel"; game 2 answers no, no and teaches "duck": the duck is recorded as rideable | clear `solnAnswers` | high (not executed) | AnimalGame.ResetScenario | AnimalGame.AiEngine.Reset |
