# Bids, sorts and a course catalogue, in Dafny

This project models three small C++ programs from a data-structures course and
proves properties of the models. The programs are:

- `LinkedList/LinkedList.cpp`: a singly linked list of auction bids.
- `VectorSorting/VectorSorting.cpp`: selection sort and quicksort of a vector
  of bids, ordered by title.
- `CS300ProjectTwo/CS300ProjectTwo.cpp`: a course catalogue. It loads
  comma-separated course lines. It lists the courses ordered by course number.
  It looks up one course by number, ignoring case.

The modules are:

- `Bids` (`bids.dfy`). The `Bid` record, with its default (empty strings and
  amount 0). It also holds the strip step of `strToDouble`, the
  `erase(remove(...))` pass that drops every occurrence of one character. That
  step is modelled twice: in place on an `array<char>`, and as the
  specification function `Strip`.
- `Lex` (`lex.dfy`). The comparison `std::string::compare(...) < 0`, which is
  also `operator<` on strings. It is modelled as lexicographic order on
  character codes, and proved to be a strict total order.
- `LinkedBids` (`linked_list.dfy`). The list as a `class` over heap `Node`s.
  - It has `head`, `tail` and `size` fields.
  - Ghost `nodes` and `Contents` describe the chain.
  - A `Repr` footprint frames it.

  Every method follows the code as written, not the comments above it:
  - `Append` on a non-empty list walks to the last node and links nothing, so
    that bid is lost.
  - `size` is never updated, and `tail` is never set to a node: the constructor
    sets it to null and nothing changes it afterwards.
  - In `PrintList`, the condition `head = nullptr` is an assignment, so every
    call empties the list and prints nothing.
  - `Remove` reads `temp->next->bid` without checking for null. On a list of
    one node whose id does not match, that is a null dereference, so the model
    makes that case a precondition. Every other input is modelled, including
    the empty list.
  - The walk of `Remove` is the read-only method `Locate`. The unlinking is
    `UnlinkHead` or `Unlink`.
  - The client method `AppendThenPrint` makes a sequence of calls on one list.
    It proves that the second `Append` is lost, that `Size` stays 0, and that
    `PrintList` leaves the list empty.
- `VectorSorting` (`vector_sorting.dfy`). Both sorts work in place on an
  `array<Bid>`.
  - Selection sort is proved to sort and to permute.
  - Quicksort is specified by the functions `Partitioned` and `QuickSorted` of
    the old contents.
    - `partition` keeps the pivot's index, not its title. A swap can move a
      different title to that index, and the later scans compare against
      that title. The scans still stay inside `[begin, end]`: the proof
      carries a ghost sentinel index that each scan cannot pass.
    - Quicksort permutes `[begin, end]` and leaves the rest alone. It does
      not always sort: on titles C, D, B, A it yields A, C, B, D.
  - The client method `SortsDisagree` applies both sorts to copies of that
    vector. It proves that selection sort's result is sorted and quicksort's
    is not.
- `CourseCatalogue` (`course_catalogue.dfy`). Courses are records. The file is
  its sequence of lines, or `None` when it cannot be opened.
  - The comma split follows `std::getline(ss, item, ',')`. An empty line has
    no fields. A final comma adds no empty field. A line that is a single
    comma yields one empty field.
  - Lines with fewer than two fields are skipped.
  - The sorted listing is the specification function `SortByNumber`, which is
    proved to be a sorted permutation.
  - The course details are the first course whose number matches the query
    after upper-casing both.

## Model

| member | source | states |
|---|---|---|
| Bids.DefaultBid | LinkedList/LinkedList.cpp:30-32 | `Bid()` has an empty id and an amount of 0; the empty id is what the caller at line 437 tests to report that a search failed |
| Bids.Strip | LinkedList/LinkedList.cpp:358 | the result is no longer than the input and contains no occurrence of the stripped character |
| Bids.StripMultiset | LinkedList/LinkedList.cpp:358 | stripping keeps exactly the other characters: the multiset of the input with the stripped character's count set to zero |
| Bids.StripAppend | VectorSorting/VectorSorting.cpp:247 | stripping a concatenation is the concatenation of the stripped parts, so the kept characters stay in their order |
| Bids.StripNoOccurrence | VectorSorting/VectorSorting.cpp:247 | a string without the character is left unchanged |
| Bids.StripIdempotent | VectorSorting/VectorSorting.cpp:247 | stripping twice is stripping once |
| Bids.RemoveInPlace | LinkedList/LinkedList.cpp:358 | the `std::remove` compaction in place: the returned length is within the buffer and the prefix of that length is `Strip` of the old contents |
| Bids.StripChar | LinkedList/LinkedList.cpp:357-360 | the string `strToDouble` hands to `atof` is `Strip(str, ch)` |
| Lex.Less | VectorSorting/VectorSorting.cpp:136 | `compare(...) < 0` on strings: characters are compared from the front, the first difference decides, and a proper prefix sorts first; no string sorts before itself |
| Lex.LessIrreflexive | VectorSorting/VectorSorting.cpp:136 | no title compares below itself |
| Lex.LessTransitive | VectorSorting/VectorSorting.cpp:219 | the title comparison is transitive |
| Lex.LessConnected | CS300ProjectTwo/CS300ProjectTwo.cpp:67 | of two different strings one compares below the other |
| Lex.LessAsymmetric | VectorSorting/VectorSorting.cpp:139 | the comparison never holds in both directions |
| Lex.LessIsStrictTotalOrder | CS300ProjectTwo/CS300ProjectTwo.cpp:66-67 | string less-than is irreflexive, asymmetric, transitive and connected, which is what `std::sort` needs of its comparator |
| Lex.LessEqTotal | VectorSorting/VectorSorting.cpp:219 | any two titles are ordered one way or the other by not-less-than |
| Lex.LessEqTransitive | VectorSorting/VectorSorting.cpp:219 | not-less-than is transitive |
| Lex.LessLessEqTransitive | VectorSorting/VectorSorting.cpp:219 | a below b and b at most c give a below c |
| Lex.LessEqLessTransitive | VectorSorting/VectorSorting.cpp:219 | a at most b and b below c give a below c |
| LinkedBids.FirstMatch | LinkedList/LinkedList.cpp:248-254 | the index of the first bid with the id, or the length when there is none: no earlier bid has the id and the one at the index does |
| LinkedBids.FirstMatchIs | LinkedList/LinkedList.cpp:248-254 | any index with those three properties is the first match |
| LinkedBids.RemoveFirst | LinkedList/LinkedList.cpp:194-217 | the reference definition of the list after `Remove`: the first bid with the id is dropped, so the list is one shorter exactly when some bid has the id |
| LinkedBids.RemoveFirstAt | LinkedList/LinkedList.cpp:194-217 | removing the first match drops exactly the element at the first-match index, and changes nothing when there is no match |
| LinkedBids.RemoveFirstMultiset | LinkedList/LinkedList.cpp:194-217 | removal takes exactly one copy of the matching bid out of the list, or none when no bid matches |
| LinkedBids.Node.constructor | LinkedList/LinkedList.cpp:57-60 | a new node holds the bid and links to null |
| LinkedBids.LinkedList.constructor | LinkedList/LinkedList.cpp:81-86 | a new list is empty and its footprint is fresh |
| LinkedBids.LinkedList.Destroy | LinkedList/LinkedList.cpp:91-102 | the destructor's walk visits every node of the chain once, in order |
| LinkedBids.LinkedList.Append | LinkedList/LinkedList.cpp:107-130 | an empty list becomes the one bid; a non-empty list is left unchanged, because the walk to the last node links nothing |
| LinkedBids.LinkedList.Prepend | LinkedList/LinkedList.cpp:135-156 | the bid goes in front of the old contents |
| LinkedBids.LinkedList.Show | LinkedList/LinkedList.cpp:168-172 | the print loop visits the bids in list order |
| LinkedBids.LinkedList.PrintList | LinkedList/LinkedList.cpp:161-177 | the assignment in the condition empties the list: nothing is printed, the empty message is not printed either, and the contents become empty |
| LinkedBids.LinkedList.Locate | LinkedList/LinkedList.cpp:190-217 | the walk of `Remove` stops at the first match: it yields that node and the node before it, or nulls when no bid matches |
| LinkedBids.LinkedList.Remove | LinkedList/LinkedList.cpp:184-230 | the contents lose their first bid with the id and nothing else; the report is the empty-list message, the deleted message or the no-record message, as the case is |
| LinkedBids.LinkedList.LastNode | LinkedList/LinkedList.cpp:212 | only the last node of the chain links to null |
| LinkedBids.LinkedList.UnlinkHead | LinkedList/LinkedList.cpp:196-198 | `head = head->next` drops the first bid |
| LinkedBids.LinkedList.Unlink | LinkedList/LinkedList.cpp:206-208 | `current->next = temp->next` drops the bid after `current` and keeps every other bid in order |
| LinkedBids.LinkedList.Search | LinkedList/LinkedList.cpp:237-266 | the first bid with the id, or the default bid when no bid has it (including on the empty list) |
| LinkedBids.LinkedList.Size | LinkedList/LinkedList.cpp:65 | always 0, so on a non-empty list it is not the number of bids |
| VectorSorting.Swap | VectorSorting/VectorSorting.cpp:146 | swapping keeps the length |
| VectorSorting.SwapPermutes | VectorSorting/VectorSorting.cpp:224 | swapping two positions permutes the contents |
| VectorSorting.SmallestFrom | VectorSorting/VectorSorting.cpp:216-222 | the inner loop finds the earliest index of a least title from `place` on |
| VectorSorting.SwapElements | VectorSorting/VectorSorting.cpp:223-225 | the new contents are `Swap` of the old ones |
| VectorSorting.SelectionStep | VectorSorting/VectorSorting.cpp:215-227 | swapping the least remaining bid into `place` permutes the contents, extends the sorted prefix by one and keeps it below the rest |
| VectorSorting.SelectionSort | VectorSorting/VectorSorting.cpp:209-236 | the result is sorted by title and is a permutation of the input |
| VectorSorting.Pivot | VectorSorting/VectorSorting.cpp:129 | the pivot index `begin + (end - begin) / 2` lies in `[begin, end)` for a non-empty range |
| VectorSorting.ScanUp | VectorSorting/VectorSorting.cpp:136-138 | the left scan stops between its start and the sentinel |
| VectorSorting.ScanDown | VectorSorting/VectorSorting.cpp:139-141 | the right scan stops between the sentinel and its start |
| VectorSorting.SwapMakesSentinels | VectorSorting/VectorSorting.cpp:146-148 | after a swap the two swapped positions stop the next scans, whatever title is now at the pivot index |
| VectorSorting.PartitionLoop | VectorSorting/VectorSorting.cpp:135-151 | the loop keeps the length and returns an index in `[begin, end)` |
| VectorSorting.PartitionLoopStep | VectorSorting/VectorSorting.cpp:142-149 | one round either finishes with the right scan's index or swaps and continues from the moved cursors |
| VectorSorting.Partitioned | VectorSorting/VectorSorting.cpp:123-151 | partition keeps the length and returns a split in `[begin, end)`, so both recursive ranges are smaller |
| VectorSorting.QuickSorted | VectorSorting/VectorSorting.cpp:174-185 | quicksort keeps the length and terminates |
| VectorSorting.PartitionLoopPermutes | VectorSorting/VectorSorting.cpp:146 | partitioning only permutes the contents |
| VectorSorting.PartitionLoopFrame | VectorSorting/VectorSorting.cpp:135-150 | partitioning changes nothing outside `[begin, end]` |
| VectorSorting.QuickSortedPermutes | VectorSorting/VectorSorting.cpp:177-185 | quicksort permutes the contents |
| VectorSorting.QuickSortedFrame | VectorSorting/VectorSorting.cpp:177-185 | quicksort changes nothing outside `[begin, end]` |
| VectorSorting.ScanUpFrom | VectorSorting/VectorSorting.cpp:136-138 | the in-place left scan ends where `ScanUp` does |
| VectorSorting.ScanDownFrom | VectorSorting/VectorSorting.cpp:139-141 | the in-place right scan ends where `ScanDown` does |
| VectorSorting.ScanUpStops | VectorSorting/VectorSorting.cpp:136 | the left scan stops on a title not below the title at the pivot index, and every title it passed is below that one |
| VectorSorting.ScanDownStops | VectorSorting/VectorSorting.cpp:139 | the right scan stops on a title not above the title at the pivot index, and every title it passed is above that one |
| VectorSorting.RoundAfterSwap | VectorSorting/VectorSorting.cpp:146-148 | after a swap the moved cursors and new sentinels again meet the loop's precondition |
| VectorSorting.LoopStateFinish | VectorSorting/VectorSorting.cpp:142-144 | a round whose scans meet finishes the loop with the contents and index that `Partitioned` promises |
| VectorSorting.LoopStateSwap | VectorSorting/VectorSorting.cpp:145-149 | a round that swaps and moves the cursors stays on track to the `Partitioned` result and brings the cursors closer |
| VectorSorting.PartitionRound | VectorSorting/VectorSorting.cpp:136-149 | one round in place keeps the loop on track to the `Partitioned` result, and an unfinished round brings the cursors closer |
| VectorSorting.Partition | VectorSorting/VectorSorting.cpp:123-163 | the new contents and the returned index are `Partitioned` of the old contents, with `begin <= h < end` |
| VectorSorting.QuickSort | VectorSorting/VectorSorting.cpp:174-197 | the new contents are `QuickSorted` of the old contents; an empty range (`end == -1` from the call at line 328 on an empty vector) leaves them alone |
| VectorSorting.QuickSortCounterexample | VectorSorting/VectorSorting.cpp:129 | on titles C, D, B, A quicksort of `[0, 3]` yields A, C, B, D |
| VectorSorting.QuickSortIsNotASort | VectorSorting/VectorSorting.cpp:174-185 | that result is not sorted by title |
| CourseCatalogue.UpperChar | CS300ProjectTwo/CS300ProjectTwo.cpp:22 | `toupper` maps a to z onto A to Z and leaves every other character alone, so no lower-case letter remains |
| CourseCatalogue.ToUpper | CS300ProjectTwo/CS300ProjectTwo.cpp:20-24 | the copy has the same length and each character is upper-cased |
| CourseCatalogue.ToUpperNoLower | CS300ProjectTwo/CS300ProjectTwo.cpp:20-24 | the result has no lower-case letter, and a string is its own upper-casing exactly when it has none |
| CourseCatalogue.ToUpperIdempotent | CS300ProjectTwo/CS300ProjectTwo.cpp:77-80 | upper-casing twice is upper-casing once |
| CourseCatalogue.NextComma | CS300ProjectTwo/CS300ProjectTwo.cpp:41 | the next field ends at a comma or at the end of the line |
| CourseCatalogue.NextCommaFirst | CS300ProjectTwo/CS300ProjectTwo.cpp:41 | no comma lies before that end |
| CourseCatalogue.NextCommaIs | CS300ProjectTwo/CS300ProjectTwo.cpp:41 | any position with those properties is that end |
| CourseCatalogue.FieldsStep | CS300ProjectTwo/CS300ProjectTwo.cpp:41-43 | one `getline(ss, item, ',')` call takes the text up to the next comma and goes on after it, or takes the rest of the line |
| CourseCatalogue.FieldsOfComma | CS300ProjectTwo/CS300ProjectTwo.cpp:41-43 | an empty line has no fields; a line that is a single comma has one empty field |
| CourseCatalogue.FieldsTrailingComma | CS300ProjectTwo/CS300ProjectTwo.cpp:41-43 | a final comma adds no empty field: "a,b," splits into "a" and "b" |
| CourseCatalogue.FieldsDoubleComma | CS300ProjectTwo/CS300ProjectTwo.cpp:41-43 | two adjacent commas give an empty field between them |
| CourseCatalogue.FieldsNoComma | CS300ProjectTwo/CS300ProjectTwo.cpp:41-43 | no field contains a comma |
| CourseCatalogue.FieldsFrom | CS300ProjectTwo/CS300ProjectTwo.cpp:41-43 | the items `getline(ss, item, ',')` extracts once the stream stands at a position; there are none exactly when nothing is left of the line |
| CourseCatalogue.Fields | CS300ProjectTwo/CS300ProjectTwo.cpp:36-43 | the items of a whole line; there are none exactly when the line is empty |
| CourseCatalogue.JoinFieldsFrom | CS300ProjectTwo/CS300ProjectTwo.cpp:41-43 | joining the fields from a position with commas gives back the rest of the line, less a final comma |
| CourseCatalogue.JoinFields | CS300ProjectTwo/CS300ProjectTwo.cpp:36-43 | joining the fields of a line gives the line back, or the line less its final comma when it ends in one |
| CourseCatalogue.FieldsJoinFrom | CS300ProjectTwo/CS300ProjectTwo.cpp:41-43 | splitting the rest of a line that is comma-free fields joined by commas gives those fields |
| CourseCatalogue.FieldsJoin | CS300ProjectTwo/CS300ProjectTwo.cpp:36-43 | fields without commas and with a non-empty last field survive a join followed by a split |
| CourseCatalogue.SplitLine | CS300ProjectTwo/CS300ProjectTwo.cpp:36-43 | the loop over `getline(ss, item, ',')` collects exactly `Fields(line)` |
| CourseCatalogue.BuildCourse | CS300ProjectTwo/CS300ProjectTwo.cpp:46-56 | a course is built exactly when the line has at least two fields |
| CourseCatalogue.BuildCourseOfFields | CS300ProjectTwo/CS300ProjectTwo.cpp:51-56 | number, title and prerequisites as fields build that very course |
| CourseCatalogue.CoursesFrom | CS300ProjectTwo/CS300ProjectTwo.cpp:35-58 | reading the lines yields at most one course per line |
| CourseCatalogue.CoursesFromAppend | CS300ProjectTwo/CS300ProjectTwo.cpp:35-58 | lines are read independently: the courses of two blocks of lines are the courses of each, in order |
| CourseCatalogue.CoursesFromLine | CS300ProjectTwo/CS300ProjectTwo.cpp:46-57 | an invalid line adds nothing and a valid line adds its course at the end |
| CourseCatalogue.CoursesFromCount | CS300ProjectTwo/CS300ProjectTwo.cpp:46-57 | the number of courses read is the number of lines with at least two fields |
| CourseCatalogue.LoadData | CS300ProjectTwo/CS300ProjectTwo.cpp:27-61 | a file that cannot be opened leaves the courses alone; otherwise the courses of its lines are appended |
| CourseCatalogue.LoadKeepsEarlier | CS300ProjectTwo/CS300ProjectTwo.cpp:57 | loading keeps the earlier courses as a prefix and adds one course per valid line |
| CourseCatalogue.Insert | CS300ProjectTwo/CS300ProjectTwo.cpp:66-68 | inserting a course adds one element |
| CourseCatalogue.SortByNumber | CS300ProjectTwo/CS300ProjectTwo.cpp:65-68 | sorting keeps the length |
| CourseCatalogue.InsertPermutes | CS300ProjectTwo/CS300ProjectTwo.cpp:66-68 | inserting adds exactly that course to the multiset |
| CourseCatalogue.SortedCons | CS300ProjectTwo/CS300ProjectTwo.cpp:67 | a course whose number is at most all the others can go in front of a sorted list |
| CourseCatalogue.InsertSorted | CS300ProjectTwo/CS300ProjectTwo.cpp:66-68 | inserting into a sorted list keeps it sorted by number |
| CourseCatalogue.SortByNumberCorrect | CS300ProjectTwo/CS300ProjectTwo.cpp:64-73 | the listing is sorted by course number and is a permutation of the courses |
| CourseCatalogue.SortedPermutationUnique | CS300ProjectTwo/CS300ProjectTwo.cpp:65-68 | when course numbers are distinct there is only one sorted permutation, so any correct sort, `std::sort` included, gives the listing `SortByNumber` gives |
| CourseCatalogue.SameHead | CS300ProjectTwo/CS300ProjectTwo.cpp:67 | two sorted permutations with distinct numbers start with the same course |
| CourseCatalogue.SameTails | CS300ProjectTwo/CS300ProjectTwo.cpp:67 | their tails are again sorted permutations of each other with distinct numbers |
| CourseCatalogue.HeadIsLeast | CS300ProjectTwo/CS300ProjectTwo.cpp:67 | the first course of a sorted list has the least number |
| CourseCatalogue.SortedTail | CS300ProjectTwo/CS300ProjectTwo.cpp:67 | the tail of a sorted list is sorted |
| CourseCatalogue.FindCourse | CS300ProjectTwo/CS300ProjectTwo.cpp:76-93 | `None` (the not-found message) exactly when no course number matches ignoring case; otherwise a listed course that matches |
| CourseCatalogue.FindCourseFirst | CS300ProjectTwo/CS300ProjectTwo.cpp:79-89 | the course shown is the first one that matches |
| CourseCatalogue.FindCourseIgnoresCase | CS300ProjectTwo/CS300ProjectTwo.cpp:77 | looking up an upper-cased number is the same as looking up the number as typed |

## Left out

- Console input and output are not modelled. Printing becomes returned values
  (`Show`, the `Removal` report, `FindCourse`'s `Option`). The menus, `main`,
  `getBid` and `displayBid` are not part of this model.
- `atof` is not modelled: it converts to floating point. `Bid.amount` is a
  `real` that the model only carries along. `strToDouble` is modelled up to the
  stripped string.
- `loadBids` and `csv::Parser` are not part of this model. Their column layout
  belongs to the external CSV parser.
- The clock (`clock()`, timing output) is not modelled: it is I/O.
- `delete` is not modelled. Dafny has no deallocation, so
  `LinkedBids.LinkedList.Destroy` returns the nodes its walk visits instead of
  freeing them. Nodes unlinked by `Remove` leave the chain but stay in `Repr`.
- `std::ifstream` is not modelled. A file is its sequence of lines, or `None`
  when it cannot be opened. `file.close()` has no effect on the model.
- `LinkedBids.LinkedList.Remove`: requires that the list is not a single node
  with another id. There the source dereferences null, so it has no defined
  behaviour to model.
- `VectorSorting.QuickSort`: also requires `0 <= begin` and `end < bids.Length`
  when `begin < end`. An out-of-range index would be undefined behaviour in
  the source. The `unsigned int middle` is a `nat`. Its `ensures` gives the
  exact result, `QuickSorted` of the old contents. That quicksort permutes
  `[begin, end]` and leaves the rest alone is proved by lemmas about
  `QuickSorted` (`QuickSortedPermutes`, `QuickSortedFrame`). No sortedness is
  promised, because the source does not sort.
- `CourseCatalogue.SortByNumber`: an insertion sort stands in for
  `std::sort`, whose algorithm is not modelled. For distinct numbers any
  correct sort gives the same listing (`SortedPermutationUnique`). For equal
  numbers, the order `std::sort` leaves them in is unspecified and is not
  modelled.
- `CourseCatalogue.UpperChar`: models `toupper` in the C locale, ASCII letters
  only. Other locales and characters beyond ASCII are not modelled. Where
  `char` is signed, a byte above 127 reaches `::toupper` as a negative value,
  which is undefined behaviour; the model has no such case.
- `Lex.Less`: compares Dafny characters by code, where a C++ `std::string`
  holds bytes. `std::char_traits<char>` compares those bytes as `unsigned
  char`, which is order by code for each byte. The model does not capture
  strings as byte sequences, so a multi-byte character is one character
  here.
- The line splitting of `std::getline` on the file is not modelled. A line is
  already a string without its newline. A carriage return stays in the last
  field.
