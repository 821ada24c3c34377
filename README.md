# zen: record order, merge sort, icon lookup and worker-pool dispatch

This project models, in Dafny, the two sequential cores of the `zen` desktop
file-search backend and proves their properties.

- **Record order and merge sort** (`src-tauri/src/io_cpu_tasks/test.rs`).
  A `FileRecord` is a search result. Its `Ord` puts directories before files
  and orders names lexicographically within each kind. Its `PartialEq` looks
  only at the directory flag. `sort` is a top-down merge sort: split at
  `len / 2`, copy the halves, sort each, then `merge` them back into the
  slice. `merge` takes the left head on ties. `get_icon_for_file` picks an
  icon from the text after the last `.` of a file name.
- **Worker pool** (`src-tauri/src/io_cpu_tasks/thread_pool.rs`). A pool of
  `size > 1` workers has one job queue and one job counter per worker.
  `execute` appends a job to the queue of the first least-loaded worker and
  bumps that worker's counter. A worker's loop takes the most recently queued
  job (LIFO) and decrements its counter, or waits when its queue is empty.
  The unused free function `get_worker` picks the last most-loaded queue.

Files:

- `records.dfy` (module `Records`): `FileRecord`, `Ordering`, name comparison,
  `Cmp` and `Eq`, and the order laws.
- `merge_sort.dfy` (module `MergeSort`): the functional specification
  (`Merged`, `MergeSorted`), the in-place `Merge` and `Sort` on arrays, and
  sortedness, permutation, stability and idempotence lemmas.
- `icons.dfy` (module `Icons`): `split('.')`, its round trips, the last
  segment, and `GetIconForFile`.
- `thread_pool.dfy` (module `ThreadPool`): first-minimum and last-maximum
  selection, the free `get_worker`, the `Pool` class (`new`, `get_worker`,
  `execute`, one worker step), the counts invariant, and the round-robin
  consequence of least-loaded dispatch.

Modelling choices:

- Names are `seq<char>` compared character by character. Rust compares the
  UTF-8 bytes, and UTF-8 byte order agrees with code point order.
- `merge` takes the two halves as values, because the source passes it
  freshly copied vectors. It requires `arr.Length == |left| + |right|`, the
  length that `clone_from_slice` demands of the remainder copies.
- The pool is one sequential state machine. A queue is its list of job ids
  (oldest first) and its worker id. Each `execute` and each worker step is one
  atomic transition. `Valid()` holds the model's scheduling invariant: each
  count equals the length of its worker's queue. In the program this holds
  only between operations, not while a thread is between its steps (see
  "## Left out").
- Stability is taken with respect to `Cmp`, which is what `merge` compares
  with. `PartialEq` looks only at the directory flag, but the sort never
  consults it, so two files with different names are always ordered by name.

## Model

| member | source | states |
|---|---|---|
| Records.CompareNames | src-tauri/src/io_cpu_tasks/test.rs:38 | `String::cmp` of two names is Equal exactly when the names are identical |
| Records.CompareNamesIsLex | src-tauri/src/io_cpu_tasks/test.rs:38 | the name comparison is Less exactly when the first name is a proper prefix of the second, or is smaller at the first position where they differ |
| Records.CompareNamesReverse | src-tauri/src/io_cpu_tasks/test.rs:38 | comparing the names the other way round gives the reversed ordering |
| Records.CompareNamesTransitive | src-tauri/src/io_cpu_tasks/test.rs:38 | "not after" on names is transitive |
| Records.Cmp | src-tauri/src/io_cpu_tasks/test.rs:31-39 | a directory is Less than a file and a file is Greater than a directory, whatever the names; the result is Equal exactly when both records are of the same kind and have the same name |
| Records.CmpSameKind | src-tauri/src/io_cpu_tasks/test.rs:36-37 | between records of the same kind, Less means the name is lexicographically smaller, and Greater means it is lexicographically larger |
| Records.CmpAntisymmetric | src-tauri/src/io_cpu_tasks/test.rs:31-39 | `cmp(a,b)` is Less exactly when `cmp(b,a)` is Greater, and swapping the arguments reverses the result |
| Records.LeTotal | src-tauri/src/io_cpu_tasks/test.rs:31-39 | any two records can be placed in some order |
| Records.LeTransitive | src-tauri/src/io_cpu_tasks/test.rs:31-39 | "not Greater" is transitive, so `cmp` is a total preorder |
| Records.LtLeTransitive | src-tauri/src/io_cpu_tasks/test.rs:31-39 | Less followed by not-Greater gives Less |
| Records.Eq | src-tauri/src/io_cpu_tasks/test.rs:16-20 | records that `eq` accepts are ordered by their names alone; records that `eq` rejects are never Equal under `cmp` |
| Records.EqVersusCmp | src-tauri/src/io_cpu_tasks/test.rs:16-20 | records that `cmp` finds Equal are `eq`; two records of the same kind with different names are `eq` although `cmp` orders them |
| MergeSort.SortedIsDirectoriesThenNames | src-tauri/src/io_cpu_tasks/test.rs:31-39 | a sequence is sorted under `cmp` exactly when every directory precedes every file and names never decrease within each kind |
| MergeSort.Merged | src-tauri/src/io_cpu_tasks/test.rs:203-230 | the records `merge` writes, smaller head first and the left head on ties; the result has as many records as both halves together (sortedness, permutation, order and stability are the lemmas below) |
| MergeSort.MergedSorted | src-tauri/src/io_cpu_tasks/test.rs:203-230 | merging two sorted sequences gives a sorted sequence |
| MergeSort.MergedPermutation | src-tauri/src/io_cpu_tasks/test.rs:203-230 | the merge holds exactly the elements of both halves, with multiplicity |
| MergeSort.MergedOrdered | src-tauri/src/io_cpu_tasks/test.rs:206-230 | when no left element is after any right element, the merge is the left half followed by the right half |
| MergeSort.MergedStable | src-tauri/src/io_cpu_tasks/test.rs:216-219 | for sorted halves and every record `x`, the records that compare Equal to `x` appear in the merge in their order in the left half, then their order in the right half |
| MergeSort.Merge | src-tauri/src/io_cpu_tasks/test.rs:203-230 | after the loop and the remainder copies, `arr` holds the merge of the two halves, a permutation of them |
| MergeSort.CopyFrom | src-tauri/src/io_cpu_tasks/test.rs:224-229 | `arr[k..].clone_from_slice(src)` overwrites the tail from `k` with `src` and leaves the prefix alone |
| MergeSort.Sort | src-tauri/src/io_cpu_tasks/test.rs:179-201 | the slice ends up as the merge sort of its old contents; slices shorter than two are left unchanged |
| MergeSort.MergeSorted | src-tauri/src/io_cpu_tasks/test.rs:179-201 | the result of `sort`, split at `len / 2` with both halves sorted and merged; it has as many records as the input (its properties are the lemmas below) |
| MergeSort.MergeSortedShort | src-tauri/src/io_cpu_tasks/test.rs:180-183 | sequences of length 0 or 1 are returned unchanged, and are sorted |
| MergeSort.MergeSortedSorted | src-tauri/src/io_cpu_tasks/test.rs:179-201 | the merge sort of any sequence is sorted under `cmp` |
| MergeSort.MergeSortedPermutation | src-tauri/src/io_cpu_tasks/test.rs:179-201 | the merge sort of a sequence is a permutation of it |
| MergeSort.MergeSortedStable | src-tauri/src/io_cpu_tasks/test.rs:179-201 | records that compare Equal keep their input order in the sorted output |
| MergeSort.MergeSortedIdempotent | src-tauri/src/io_cpu_tasks/test.rs:179-201 | sorting an already sorted sequence returns it unchanged |
| Icons.Split | src-tauri/src/io_cpu_tasks/test.rs:383 | `split('.')` yields at least one piece, and no piece contains a dot |
| Icons.JoinSplit | src-tauri/src/io_cpu_tasks/test.rs:383 | gluing the pieces back together with dots gives the original name |
| Icons.SplitJoin | src-tauri/src/io_cpu_tasks/test.rs:383 | splitting a dot-joined list of dot-free pieces gives the pieces back |
| Icons.LastPieceIsLastSegment | src-tauri/src/io_cpu_tasks/test.rs:383 | the last piece is the longest dot-free suffix of the name: all of it, or the text right after its last dot |
| Icons.GetIconForFile | src-tauri/src/io_cpu_tasks/test.rs:372-388 | the result is the file icon or the folder icon; it is the folder icon exactly when the entry is a directory or the last `.`-piece of its name is `dir` |
| Icons.FileFolderIconIffDirSegment | src-tauri/src/io_cpu_tasks/test.rs:383-387 | a non-directory gets the folder icon exactly when the text after its last dot (its whole name, if it has none) is `dir` |
| Icons.FileIconCases | src-tauri/src/io_cpu_tasks/test.rs:384-387 | a non-directory whose last segment is not `dir` gets the file icon, whether that segment is listed in the table or not |
| Icons.DirExtensionExample | src-tauri/src/io_cpu_tasks/test.rs:372-388 | a file named `backup.dir` gets the folder icon |
| Icons.FileIconExamples | src-tauri/src/io_cpu_tasks/test.rs:372-388 | `notes.txt` and the dot-free `Makefile` get the file icon |
| ThreadPool.FirstMinIndex | src-tauri/src/io_cpu_tasks/thread_pool.rs:62-67 | `min_by_key` over the counts returns an index whose count is minimal, with every earlier count strictly larger |
| ThreadPool.FirstMinIndexUnique | src-tauri/src/io_cpu_tasks/thread_pool.rs:62-67 | that index is the only one that is minimal with no minimal index before it |
| ThreadPool.LastMaxIndex | src-tauri/src/io_cpu_tasks/thread_pool.rs:130-134 | `max_by_key` over the counts returns an index whose count is maximal, with every later count strictly smaller |
| ThreadPool.LastMaxIndexUnique | src-tauri/src/io_cpu_tasks/thread_pool.rs:130-134 | that index is the only one that is maximal with no maximal index after it |
| ThreadPool.GetBusiestWorker | src-tauri/src/io_cpu_tasks/thread_pool.rs:124-138 | the free `get_worker` returns None exactly when there are fewer queues than counts; otherwise it returns the queue at the last index of maximal count |
| ThreadPool.Submit | src-tauri/src/io_cpu_tasks/thread_pool.rs:47-57 | one submission adds one to the count of the first least-loaded worker and leaves every other count alone |
| ThreadPool.RoundRobinStep | src-tauri/src/io_cpu_tasks/thread_pool.rs:60-70 | when the first `r` workers have one job more than the rest, the next submission goes to worker `r` |
| ThreadPool.RoundRobin | src-tauri/src/io_cpu_tasks/thread_pool.rs:60-70 | from zero counts, `q * n + r` submissions to `n` workers leave `q + 1` jobs with the first `r` workers and `q` with the rest |
| ThreadPool.RoundRobinDivMod | src-tauri/src/io_cpu_tasks/thread_pool.rs:60-70 | from zero counts, `k` submissions leave `k / n` jobs with every worker and one more with the first `k % n` |
| ThreadPool.Balanced | src-tauri/src/io_cpu_tasks/thread_pool.rs:60-70 | with only submissions, any two workers' counts differ by at most one |
| ThreadPool.FullRounds | src-tauri/src/io_cpu_tasks/thread_pool.rs:60-70 | from zero counts, `q * n` submissions to `n` workers leave exactly `q` jobs with each |
| ThreadPool.FortyJobsFourWorkers | src-tauri/src/io_cpu_tasks/thread_pool.rs:150-157 | forty submissions from zero counts to four workers leave the counts `[10, 10, 10, 10]` |
| ThreadPool.Pool.constructor | src-tauri/src/io_cpu_tasks/thread_pool.rs:19-34 | `new(size)` requires `size > 1`; it creates `size` empty queues with worker ids `1..size`, `size` zero counts and `size` workers, and the counts invariant holds |
| ThreadPool.Pool.GetWorker | src-tauri/src/io_cpu_tasks/thread_pool.rs:60-70 | the pool's `get_worker` picks the queue of a least-loaded worker, with every earlier worker strictly busier; that queue carries worker id `index + 1` |
| ThreadPool.Pool.Execute | src-tauri/src/io_cpu_tasks/thread_pool.rs:43-58 | the job is appended at the back of the chosen queue and counted at index `id - 1`; the other queues are unchanged; the counts take one `Submit` step; the pending jobs gain the job; the counts invariant is kept |
| ThreadPool.Pool.Step | src-tauri/src/io_cpu_tasks/thread_pool.rs:88-97 | a worker with jobs takes the most recently added one and its count drops by one; a worker with an empty queue changes nothing; the pending jobs lose exactly the job taken; the counts invariant is kept |
| ThreadPool.SubmitJobs | src-tauri/src/io_cpu_tasks/thread_pool.rs:146-158 | the unit test's scenario, with the pool size and number of jobs as parameters: a new pool given `jobs` submissions has counts in round-robin shape, and its pending jobs are exactly the submitted ones |

## Left out

- Filesystem access and serialisation (`search`, `search2`, `open_dir`, `parse_entry`, the JSON round trips and the rayon `par_iter`) and the commented-out search variants: they depend on the filesystem, `Path` semantics and foreign libraries.
- The thread spawned in `sort` for the left half and the `join`: it adds parallelism only, so `Sort` is sequential recursion.
- OS threads, `Mutex`, `Condvar` wait and notify, `Arc`, and the gap between reading the counts and enqueueing: each submission and each worker step is treated as one atomic transition.
- Job bodies: a job is an opaque id. Running it and the `job().unwrap()` panic on a failing job are not modelled.
- The commented-out work-stealing block in the worker loop: it is a comment, not code.
- All `println!` output, the worker threads' names, and the `Err` arm when a thread cannot be spawned.
- The `map!` macro: the icon table is a constant map.
- `partial_cmp` is `Some(cmp)`; the model uses `Cmp` directly.
- Pool.Execute: counts are unbounded naturals; `fetch_add` wrap-around at `usize::MAX` is not modelled.
- Pool.Step: `execute` releases the queue lock (thread_pool.rs:53) before it increments the count (thread_pool.rs:54). A running worker can pop the new job and `fetch_sub` its count in between, so the program's count can briefly wrap from 0 to `usize::MAX`. The model's atomic steps keep `counts[i] == |queues[i].jobs|` throughout, so this transient is not modelled.
- GetBusiestWorker: when there are no counts and so no shortage of queues, the source's `unwrap` panics; the model's precondition rules that input out.
- Merge: `arr` is an array updated in place, but the halves are passed as sequences, because the source hands `merge` copies of them.
