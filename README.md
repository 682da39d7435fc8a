# seekaur, modelled in Dafny

`seekaur` is a small command-line client for the AUR (Arch User Repository)
package index. It sends RPC requests to `https://aur.archlinux.org`, decodes
the JSON replies into `Package` records, and prints them in two layouts. The
`search` layout lists packages sorted by category and then by name. The `info`
layout prints one labelled block per requested name. Two more commands work
from a package name: `tarball` prints the link to its snapshot archive without
making a request, and `pkgbuild` fetches its `PKGBUILD` over HTTP and prints
the body.

This project models the parts of `seekaur.go` that hold logic:

- **Search order** (`Ordering`, `PackageList`). `PackageList.Less` compares
  records by `CategoryID`, then by `Name` using Go's byte-wise string `<`
  (`GoStrings.LexLess`). The lemmas show it is a strict weak order whose
  ties are records with equal category and name. `PackageList.Sort` is an
  in-place sort of an array built only from `Len`, `Less` and `Swap`. It is
  proved to leave the array sorted and a permutation of its input. With unique
  names (which the service guarantees within one reply) the sorted result is
  unique, so sorting a sorted reply changes nothing.
- **Timestamp decoding** (`Timestamp`). `strconv.Atoi` is modelled with its
  64-bit range. `Atoi` succeeds exactly on an optional `+`/`-` followed by
  decimal digits whose value fits in 64 bits. `Atoi` is proved to undo
  `Itoa` on every 64-bit integer; the converse does not hold, since
  `Atoi("+007")` is 7 and `Itoa(7)` is `"7"`. `TimeUnmarshaler.UnmarshalJSON` stores the value as Unix seconds,
  or leaves the receiver unchanged and returns the error. A JSON `null` token
  therefore fails too.
- **Multi-info reconciliation** (`MultiInfo`). Several facts are proved here:
  - The batched request path is `/rpc.php?type=multiinfo` followed by
    `&arg[]=` and the escaped name, for each name in order. When no escaped
    name contains `&`, a reader of the query gets back exactly the escaped
    names, in order.
  - Each argument is looked up in turn, and the first record with that name
    goes to the callback. A callback error ends the lookup at once. Arguments
    with no record are reported as not found, in order.
  - At the end the lookup fails if the reply is shorter than the argument
    list. This compares counts, not the per-argument `found` flags. The two
    agree when the arguments are distinct and the reply holds only requested
    names, each once. A repeated argument breaks that agreement.
- **Views and commands** (`Commands`). The listing's version colour depends
  only on `OutOfDate == 0`. The info block shows staleness only as the
  ` [out of date]` suffix. The tarball and PKGBUILD links take the first two
  characters of the name. Each command is modelled with the status it exits
  with: 0, 1 for `os.Exit(1)`, 2 for a Go panic.

Behaviour of the code that is easy to misread, and what the model does:

- `search` sorts with `sort.Sort` (`seekaur.go:176`), which is not stable; no
  stability is claimed.
- `multiInfo`'s doc comment (`seekaur.go:96-98`) says it fails when some
  package does not exist, but the error comes from the count test at
  `seekaur.go:131-134`. The model follows the count test and proves when the
  two agree.
- A name shorter than two characters makes `tarball` and `pkgbuild` panic at
  `s[0:2]` (`seekaur.go:251`, `seekaur.go:296`). The output printed before
  that remains.
- `strconv.Atoi` (`seekaur.go:62`) also refuses integers outside the 64-bit
  range.

## Model

| member | source | states |
|---|---|---|
| GoStrings.LexIrreflexive | seekaur.go:45 | no name is `<` itself |
| GoStrings.LexAsymmetric | seekaur.go:45 | `a < b` excludes `b < a` |
| GoStrings.LexTransitive | seekaur.go:45 | `<` on names is transitive |
| GoStrings.LexTotal | seekaur.go:45 | two different names are ordered one way or the other |
| Packages.CategoryName | seekaur.go:138-159 | the table's entry 0 is the only empty name, and no two ids share a name |
| Ordering.LessByKey | seekaur.go:40-50 | a smaller category is always first and a larger one never is, whatever the names; with equal categories `Less` is exactly name order |
| Ordering.LessIrreflexive | seekaur.go:40-50 | no record is `Less` than itself |
| Ordering.LessAsymmetric | seekaur.go:40-50 | `Less(x, y)` excludes `Less(y, x)` |
| Ordering.LessTransitive | seekaur.go:40-50 | `Less` is transitive |
| Ordering.IncomparableIffSameKey | seekaur.go:40-50 | two records are unordered both ways exactly when category and name are equal (a strict weak order) |
| Ordering.NotLessTransitive | seekaur.go:40-50 | "not before" is transitive |
| Ordering.AdjacentSortedIsSorted | seekaur.go:176 | neighbours in order imply every pair in order |
| Ordering.SortedPermutationHeads | seekaur.go:176 | two sorted permutations of a reply with unique names start with the same record |
| Ordering.SortedPermutationUnique | seekaur.go:176 | with unique names there is only one sorted permutation, so the sort is deterministic and idempotent though unstable |
| PackageList.Len | seekaur.go:36 | the number of records in the list |
| PackageList.Swap | seekaur.go:37 | exchanges two records and nothing else; the contents stay a permutation |
| PackageList.Sort | seekaur.go:176 | afterwards the array is non-decreasing by (category, name) and a permutation of what it held |
| PackageList.Insert | seekaur.go:176 | one insertion step extends the ordered prefix by one, keeps the whole array a permutation, and leaves every record after the step's index where it was |
| PackageList.PrefixPermutation | seekaur.go:176 | a rearrangement of the whole array that leaves the suffix alone rearranges the prefix, so each insertion step only reorders the records already taken in |
| Timestamp.Accumulate | seekaur.go:62 | the left-to-right digit loop succeeds exactly on all-digit text and yields its decimal value |
| Timestamp.ConsumeDigit | seekaur.go:62 | appending one digit multiplies the value by ten and adds the digit |
| Timestamp.Atoi | seekaur.go:62-65 | succeeds exactly on an optionally signed run of digits within the 64-bit range, with that integer as value; otherwise returns the Atoi error |
| Timestamp.DigitsRoundTrip | seekaur.go:62 | decimal digits of a natural number read back as that number |
| Timestamp.ItoaToken | seekaur.go:62 | Go's decimal text of any integer is a token denoting it |
| Timestamp.AtoiItoa | seekaur.go:62-65 | `Atoi` inverts `Itoa` on every 64-bit integer and refuses every integer outside that range |
| Timestamp.AtoiRejectsMalformed | seekaur.go:62-65 | empty text, a bare sign, a quoted number, a fraction and `null` are refused |
| Timestamp.AtoiAcceptsSignAndZeros | seekaur.go:62-65 | a leading `+` or `-` and leading zeros are accepted |
| Timestamp.TimeUnmarshaler.UnmarshalJSON | seekaur.go:61-69 | succeeds exactly on a valid 64-bit integer token and then holds that many seconds since the epoch; on failure the receiver is unchanged and the Atoi error is returned |
| Timestamp.EpochExample | seekaur.go:67 | 2012-10-22 21:02:48 UTC is Unix second 1350939768 |
| Timestamp.DecodeExample | seekaur.go:61-69 | decoding `1350939768` yields 2012-10-22 21:02:48 UTC |
| MultiInfo.BuildRequest | seekaur.go:100-104 | the request is `/rpc.php?type=multiinfo` followed by `&arg[]=` and the escaped name for each argument, in order |
| MultiInfo.QueryArgsRoundTrip | seekaur.go:100-104 | when escaped names contain no `&`, the request's parameters read back as exactly the escaped names, in order |
| MultiInfo.FirstMatch | seekaur.go:116-124 | finds the first record with the given name, or reports that none has it |
| MultiInfo.Matched | seekaur.go:114-129 | the records found for the arguments, each a record of the reply named by an argument, and no more records than arguments |
| MultiInfo.Unmatched | seekaur.go:126-128 | a name is reported exactly when it is an argument and no record carries it; matched plus unmatched account for every argument |
| MultiInfo.ReconcilePasses | seekaur.go:114-129 | while the callback accepts its records, it is called with the first record of each found argument in argument order, and not-found is reported for exactly the other arguments, in order |
| MultiInfo.ReconcileStopsAtFailure | seekaur.go:118-121 | after a callback error no later argument adds a call or a diagnostic |
| MultiInfo.ReconcileStopsAtFirstRejection | seekaur.go:114-129 | the first argument whose record the callback rejects ends the loop with that error, after the calls and diagnostics of the arguments before it |
| MultiInfo.UnmatchedCount | seekaur.go:131-134 | with distinct arguments and a reply of requested names each once, exactly `len(args) - len(results)` arguments go unmatched |
| MultiInfo.CountCheckMeansNotFound | seekaur.go:96-98 | under those conditions the count comparison fails exactly when some argument was not found |
| MultiInfo.RepeatedArgumentFoundTwice | seekaur.go:131-134 | a name given twice is found twice with no diagnostic, though the one-record reply is shorter than the argument list |
| MultiInfo.OutOfOrderReply | seekaur.go:111-134 | for arguments X, Y, Z and a reply Z, Y the callback sees Y then Z, and only X is not found |
| MultiInfo.MultiInfo | seekaur.go:99-135 | a request error is returned as is; otherwise calls and diagnostics follow the reconciliation, a callback error is returned at once, else the not-found error is returned exactly when the reply has fewer records than there are arguments |
| Commands.StyleOf | seekaur.go:180-185 | the listing shows the stale colour exactly when `OutOfDate != 0` |
| Commands.InfoVersion | seekaur.go:208-211 | the info version is the version, followed by ` [out of date]` exactly when flagged |
| Commands.InfoVersionShowsFlag | seekaur.go:208-211 | for equal versions, the info lines are equal exactly when the flags agree |
| Commands.StalenessPerView | seekaur.go:180-211 | the listing signals staleness only by colour, the info block only by the suffix |
| Commands.SearchEntries | seekaur.go:177-189 | one listing entry per record, in the order given |
| Commands.Search | seekaur.go:176-189 | the results end up sorted and permuted, and the listing follows that order |
| Commands.SearchCommand | seekaur.go:165-190 | a wrong argument count exits 1, a failed request panics, otherwise the listing is a sorted permutation of the reply |
| Commands.InfoEntries | seekaur.go:205-221 | one info block per record, in the order given |
| Commands.InfoCommand | seekaur.go:199-227 | every found argument gets its block in argument order, the others are reported, and the exit status is 1 exactly on no arguments, a failed request, or a reply shorter than the argument list |
| Commands.LinkLayout | seekaur.go:251-296 | the tarball and PKGBUILD links put the name's first two characters and then the name right after `/packages/` |
| Commands.LinksInjective | seekaur.go:250-296 | different names never share a tarball link, nor a PKGBUILD link |
| Commands.FirstShort | seekaur.go:250-252 | finds the first name too short for `s[0:2]` |
| Commands.TarballCommand | seekaur.go:236-253 | no arguments exits 1; otherwise one link per name up to the first name shorter than two characters, where the command panics |
| Commands.FirstPkgbuildStop | seekaur.go:295-300 | finds the first name that is too short or whose fetch fails |
| Commands.PkgbuildCommand | seekaur.go:262-301 | prints each fetched body, whatever its HTTP status, until the first failure: a failed fetch exits 1, a short name panics |

## Left out

- The HTTP request and JSON decoding of `aurRequest` (seekaur.go:74-89) are not modelled. The model takes a function from the request path to the decoded reply or its error.
- `url.QueryEscape` is a function parameter. The round-trip lemma assumes only that its output holds no raw `&`.
- `http.Get` and `ioutil.ReadAll` in `printPKGBUILD` are a function parameter from the link to the body or an error.
- `time.Time.Format` is foreign code, so the info block keeps both times as Unix seconds.
- ANSI colour sequences and `fmt` output are reduced to a style tag and the printed fields.
- The model keeps info blocks and not-found diagnostics in two lists. It does not capture how they interleave on standard output.
- cobra command wiring, the usage messages on standard error, and the `version` command are not modelled; `version` prints a constant.
- The commented-out code in `tarball` and `pkgbuild` is dead and not modelled.
- `Response.Type` and `Response.Count` are decoded but never read.
- An out-of-range `CategoryID` panics in the program. Here it is a precondition, since the table and the server are assumed to agree.
- Strings are sequences of `char`, each standing for one byte of the Go string.
- Timestamp.Atoi: does not distinguish `ErrSyntax` from `ErrRange` in the returned `*NumError`, only that decoding failed.
- PackageList.Sort: states only what `sort.Sort` promises (sorted, a permutation). Go's pattern-defeating quicksort may order equal-key records differently.
