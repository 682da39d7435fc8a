/** `multiInfo`: one batched `multiinfo` request for a list of package
    names, then, for each name in the caller's order, a scan of the
    unordered reply for the record of that name. The HTTP round trip and
    JSON decoding (`aurRequest`) are a function parameter `aur` from the
    request path to the decoded reply or its error; `url.QueryEscape` is a
    parameter `escape`; the callback `f` returns a nil or non-nil error. */
module MultiInfo {
  import opened Wrappers
  import opened Packages

  const MultiInfoPath: string := "/rpc.php?type=multiinfo"
  const ArgKey: string := "&arg[]="
  const NotFoundMessage: string := "Some packages were not found"

  /* ---------------- the batched request ---------------- */

  /** The repeated `arg[]` parameters, one per name, in order. */
  function EncodedArgs(args: seq<string>, escape: string -> string): string
    decreases |args|
  {
    if args == [] then "" else ArgKey + escape(args[0]) + EncodedArgs(args[1..], escape)
  }

  /** The whole request path `multiInfo` hands to `aurRequest`. */
  function RequestPath(args: seq<string>, escape: string -> string): string {
    MultiInfoPath + EncodedArgs(args, escape)
  }

  lemma {:induction false} EncodedArgsAppend(args: seq<string>, a: string, escape: string -> string)
    ensures EncodedArgs(args + [a], escape) == EncodedArgs(args, escape) + ArgKey + escape(a)
    decreases |args|
  {
    if args == [] {
      assert [a][1..] == [];
    } else {
      assert (args + [a])[1..] == args[1..] + [a];
      EncodedArgsAppend(args[1..], a, escape);
    }
  }

  /** The loop that appends `&arg[]=` and the escaped name for each
      argument to `/rpc.php?type=multiinfo`. */
  method BuildRequest(args: seq<string>, escape: string -> string) returns (request: string)
    ensures request == RequestPath(args, escape)
  {
    request := MultiInfoPath;
    for i := 0 to |args|
      invariant request == MultiInfoPath + EncodedArgs(args[..i], escape)
    {
      request := request + ArgKey;
      request := request + escape(args[i]);
      EncodedArgsAppend(args[..i], args[i], escape);
      assert args[..i + 1] == args[..i] + [args[i]];
    }
    assert args[..|args|] == args;
  }

  /** Number of characters before the next `&`, or to the end. */
  function ValueLength(s: string): (n: nat)
    ensures n <= |s|
    ensures forall i :: 0 <= i < n ==> s[i] != '&'
    ensures n < |s| ==> s[n] == '&'
  {
    if s == [] || s[0] == '&' then 0 else 1 + ValueLength(s[1..])
  }

  /** Reads back the values of a run of `&arg[]=` parameters, as the
      server splits them; `None` when the text is not such a run. */
  function QueryArgs(s: string): Option<seq<string>>
    decreases |s|
  {
    if s == [] then Some([])
    else if |s| < |ArgKey| || s[..|ArgKey|] != ArgKey then None
    else
      var v := s[|ArgKey|..];
      var n := ValueLength(v);
      match QueryArgs(v[n..])
      case None => None
      case Some(rest) => Some([v[..n]] + rest)
  }

  lemma {:induction false} ValueLengthOf(e: string, rest: string)
    requires forall i :: 0 <= i < |e| ==> e[i] != '&'
    requires rest == [] || rest[0] == '&'
    ensures ValueLength(e + rest) == |e|
    decreases |e|
  {
    if e != [] {
      assert (e + rest)[1..] == e[1..] + rest;
      ValueLengthOf(e[1..], rest);
    }
  }

  /** Escaped names: what the server receives, one per argument. */
  function EscapedArgs(args: seq<string>, escape: string -> string): (r: seq<string>)
    ensures |r| == |args| && forall i :: 0 <= i < |args| ==> r[i] == escape(args[i])
  {
    seq(|args|, i requires 0 <= i < |args| => escape(args[i]))
  }

  /** The request is unambiguous: as long as an escaped name never holds a
      raw `&` (which `url.QueryEscape` guarantees), the server reads back
      exactly the escaped names, in the caller's order. */
  lemma {:induction false} QueryArgsRoundTrip(args: seq<string>, escape: string -> string)
    requires forall i, k :: 0 <= i < |args| && 0 <= k < |escape(args[i])| ==> escape(args[i])[k] != '&'
    ensures QueryArgs(EncodedArgs(args, escape)) == Some(EscapedArgs(args, escape))
    decreases |args|
  {
    if args != [] {
      var e := escape(args[0]);
      var tail := EncodedArgs(args[1..], escape);
      var s := EncodedArgs(args, escape);
      assert s == ArgKey + (e + tail);
      assert s[..|ArgKey|] == ArgKey && s[|ArgKey|..] == e + tail;
      assert tail == [] || tail[0] == '&' by {
        if args[1..] != [] { assert tail[..|ArgKey|] == ArgKey; }
      }
      ValueLengthOf(e, tail);
      assert (e + tail)[|e|..] == tail && (e + tail)[..|e|] == e;
      QueryArgsRoundTrip(args[1..], escape);
      assert EscapedArgs(args, escape) == [e] + EscapedArgs(args[1..], escape);
    }
  }

  /* ---------------- reconciling the reply ---------------- */

  /** Index of the first record named `name`: the inner `range` loop of
      `multiInfo`, which stops at the first hit. */
  function FirstMatch(results: seq<Package>, name: string): (r: Option<nat>)
    ensures r.Some? ==> r.value < |results| && results[r.value].Name == name
    ensures r.Some? ==> forall m :: 0 <= m < r.value ==> results[m].Name != name
    ensures r.None? ==> forall m :: 0 <= m < |results| ==> results[m].Name != name
    decreases |results|
  {
    if results == [] then None
    else if results[0].Name == name then Some(0)
    else match FirstMatch(results[1..], name)
      case None => None
      case Some(k) => Some(k + 1)
  }

  /** What `multiInfo`'s main loop has produced after some arguments: the
      records passed to the callback, the names reported as not found, and
      the callback's error once it has returned one (the loop then stops). */
  datatype Trace = Trace(calls: seq<Package>, notFound: seq<string>, failure: Option<Error>)

  function Reconcile(args: seq<string>, results: seq<Package>, f: Package -> Option<Error>): Trace
    decreases |args|
  {
    if args == [] then Trace([], [], None)
    else
      var t := Reconcile(args[..|args| - 1], results, f);
      var a := args[|args| - 1];
      if t.failure.Some? then t
      else match FirstMatch(results, a)
        case None => Trace(t.calls, t.notFound + [a], None)
        case Some(k) => Trace(t.calls + [results[k]], t.notFound, f(results[k]))
  }

  /** The record, if any, that the scan finds for each argument, in
      argument order: the reference for the callback's invocations. */
  function Matched(args: seq<string>, results: seq<Package>): (r: seq<Package>)
    ensures forall i :: 0 <= i < |r| ==> r[i] in results && r[i].Name in args
    ensures |r| <= |args|
    decreases |args|
  {
    if args == [] then []
    else
      var pre := Matched(args[..|args| - 1], results);
      match FirstMatch(results, args[|args| - 1])
      case None => pre
      case Some(k) => pre + [results[k]]
  }

  /** The arguments that no record carries the name of, in order. */
  function Unmatched(args: seq<string>, results: seq<Package>): (r: seq<string>)
    ensures forall x :: x in r <==> x in args && forall p :: p in results ==> p.Name != x
    ensures |Matched(args, results)| + |r| == |args|
    decreases |args|
  {
    if args == [] then []
    else
      var pre := Unmatched(args[..|args| - 1], results);
      var a := args[|args| - 1];
      assert args == args[..|args| - 1] + [a];
      match FirstMatch(results, a)
      case None => pre + [a]
      case Some(k) => pre
  }

  /** The callback returns an error for the record found for `a`. */
  predicate Rejects(results: seq<Package>, f: Package -> Option<Error>, a: string) {
    match FirstMatch(results, a)
    case None => false
    case Some(k) => f(results[k]).Some?
  }

  /** While the callback accepts every record it is given, it is called
      once for each argument that has a record, in argument order, with the
      first record of that name, and "not found" is reported exactly for
      the remaining arguments, in order. */
  lemma {:induction false} ReconcilePasses(args: seq<string>, results: seq<Package>, f: Package -> Option<Error>)
    requires forall i :: 0 <= i < |args| ==> !Rejects(results, f, args[i])
    ensures Reconcile(args, results, f) == Trace(Matched(args, results), Unmatched(args, results), None)
    decreases |args|
  {
    if args != [] {
      var pre := args[..|args| - 1];
      assert forall i :: 0 <= i < |pre| ==> pre[i] == args[i];
      ReconcilePasses(pre, results, f);
      assert !Rejects(results, f, args[|args| - 1]);
    }
  }

  /** Once the callback has failed, later arguments change nothing. */
  lemma {:induction false} ReconcileStopsAtFailure(args: seq<string>, results: seq<Package>, f: Package -> Option<Error>, k: nat)
    requires k <= |args|
    requires Reconcile(args[..k], results, f).failure.Some?
    ensures Reconcile(args, results, f) == Reconcile(args[..k], results, f)
    decreases |args|
  {
    if k < |args| {
      var pre := args[..|args| - 1];
      assert pre[..k] == args[..k];
      ReconcileStopsAtFailure(pre, results, f, k);
    } else {
      assert args[..k] == args;
    }
  }

  /** The first argument whose record the callback rejects ends the loop
      with that error: the calls made are the records of the arguments up
      to and including it, and no later argument is reported not found. */
  lemma ReconcileStopsAtFirstRejection(args: seq<string>, results: seq<Package>, f: Package -> Option<Error>, k: nat)
    requires k < |args| && Rejects(results, f, args[k])
    requires forall i :: 0 <= i < k ==> !Rejects(results, f, args[i])
    ensures Reconcile(args, results, f).failure == f(results[FirstMatch(results, args[k]).value])
    ensures Reconcile(args, results, f).calls == Matched(args[..k + 1], results)
    ensures Reconcile(args, results, f).notFound == Unmatched(args[..k], results)
  {
    var pre := args[..k];
    assert forall i :: 0 <= i < |pre| ==> pre[i] == args[i];
    ReconcilePasses(pre, results, f);
    var t := args[..k + 1];
    assert t[..|t| - 1] == pre && t[|t| - 1] == args[k];
    var m := FirstMatch(results, args[k]).value;
    assert Matched(t, results) == Matched(pre, results) + [results[m]];
    assert Reconcile(t, results, f) == Trace(Matched(t, results), Unmatched(pre, results), f(results[m]));
    ReconcileStopsAtFailure(args, results, f, k + 1);
  }

  /* ---------------- counts against found flags ---------------- */

  ghost predicate Distinct(args: seq<string>) {
    forall i, j :: 0 <= i < j < |args| ==> args[i] != args[j]
  }

  /** `Unmatched` depends only on which of the arguments the reply names. */
  lemma {:induction false} UnmatchedSameNames(args: seq<string>, results: seq<Package>, other: seq<Package>)
    requires forall i :: 0 <= i < |args| ==>
      (FirstMatch(results, args[i]).None? <==> FirstMatch(other, args[i]).None?)
    ensures Unmatched(args, results) == Unmatched(args, other)
    decreases |args|
  {
    if args != [] {
      var pre := args[..|args| - 1];
      assert forall i :: 0 <= i < |pre| ==> pre[i] == args[i];
      UnmatchedSameNames(pre, results, other);
      assert FirstMatch(results, args[|args| - 1]).None? <==> FirstMatch(other, args[|args| - 1]).None?;
    }
  }

  /** Removing the one record named `a` from a reply leaves the lookup of
      every other name as it was. */
  lemma RemoveMatch(args: seq<string>, results: seq<Package>, k: nat, a: string)
    requires k < |results| && results[k].Name == a
    requires forall i :: 0 <= i < |args| ==> args[i] != a
    ensures forall i :: 0 <= i < |args| ==>
      (FirstMatch(results, args[i]).None? <==> FirstMatch(results[..k] + results[k + 1..], args[i]).None?)
  {
    var rest := results[..k] + results[k + 1..];
    forall i | 0 <= i < |args|
      ensures FirstMatch(results, args[i]).None? <==> FirstMatch(rest, args[i]).None?
    {
      var x := args[i];
      if FirstMatch(results, x).Some? {
        var m := FirstMatch(results, x).value;
        assert m != k;
        if m < k {
          assert rest[m] == results[m];
        } else {
          assert rest[m - 1] == results[m];
        }
      }
      if FirstMatch(rest, x).Some? {
        var m := FirstMatch(rest, x).value;
        if m < k {
          assert rest[m] == results[m];
        } else {
          assert rest[m] == results[m + 1];
        }
      }
    }
  }

  lemma NoRecordsForNoNames(results: seq<Package>)
    ensures (forall i :: 0 <= i < |results| ==> results[i].Name in []) ==> results == []
  {
    if results != [] {
      assert results[0].Name !in [];
    }
  }

  /** When the arguments are distinct and the reply holds only requested
      names, each once, every record accounts for one argument, so the
      arguments left unmatched number exactly `|args| - |results|`. */
  lemma {:induction false} UnmatchedCount(args: seq<string>, results: seq<Package>)
    requires Distinct(args)
    requires UniqueNames(results)
    requires forall i :: 0 <= i < |results| ==> results[i].Name in args
    ensures |Unmatched(args, results)| == |args| - |results|
    decreases |args|
  {
    if args == [] {
      NoRecordsForNoNames(results);
    } else {
      var pre := args[..|args| - 1];
      var a := args[|args| - 1];
      assert args == pre + [a];
      assert Distinct(pre);
      assert forall i :: 0 <= i < |pre| ==> pre[i] != a;
      match FirstMatch(results, a)
      case None =>
        forall i | 0 <= i < |results|
          ensures results[i].Name in pre
        {
          assert results[i].Name in args && results[i].Name != a;
        }
        UnmatchedCount(pre, results);
      case Some(k) =>
        var rest := results[..k] + results[k + 1..];
        RemainingNames(pre, a, results, k);
        RemoveMatch(pre, results, k, a);
        UnmatchedSameNames(pre, results, rest);
        UnmatchedCount(pre, rest);
    }
  }

  /** The rest of a reply without its record named `a` still has unique
      names, all among the other arguments. */
  lemma RemainingNames(pre: seq<string>, a: string, results: seq<Package>, k: nat)
    requires k < |results| && results[k].Name == a
    requires UniqueNames(results)
    requires forall i :: 0 <= i < |results| ==> results[i].Name in pre + [a]
    ensures var rest := results[..k] + results[k + 1..];
      UniqueNames(rest) && forall i :: 0 <= i < |rest| ==> rest[i].Name in pre
  {
  }

  /** Under the same assumptions the final count comparison of `multiInfo`
      reports an error exactly when some argument was not found. */
  lemma CountCheckMeansNotFound(args: seq<string>, results: seq<Package>)
    requires Distinct(args)
    requires UniqueNames(results)
    requires forall i :: 0 <= i < |results| ==> results[i].Name in args
    ensures |results| < |args| <==> Unmatched(args, results) != []
  {
    UnmatchedCount(args, results);
  }

  /** Without those assumptions the two disagree: a name given twice is
      found twice, yet the reply's single record is fewer than the two
      arguments, so "Some packages were not found" is returned. */
  lemma RepeatedArgumentFoundTwice(p: Package, f: Package -> Option<Error>)
    requires p.Name == "foo" && f(p).None?
    ensures Reconcile(["foo", "foo"], [p], f) == Trace([p, p], [], None)
  {
  }

  /** Asked for X, Y and Z, with a reply holding Z then Y: the callback sees
      Y then Z, X is reported not found, and since two records are fewer than
      three arguments the lookup fails. */
  lemma OutOfOrderReply(y: Package, z: Package, f: Package -> Option<Error>)
    requires y.Name == "Y" && z.Name == "Z" && f(y).None? && f(z).None?
    ensures Reconcile(["X", "Y", "Z"], [z, y], f) == Trace([y, z], ["X"], None)
  {
    assert ["X", "Y", "Z"][..2] == ["X", "Y"];
    assert ["X", "Y"][..1] == ["X"];
    assert ["X"][..0] == [];
    assert FirstMatch([z, y], "X") == None;
    assert FirstMatch([z, y], "Y") == Some(1);
    assert FirstMatch([z, y], "Z") == Some(0);
  }

  /** `multiInfo`. A failed request is returned as it is. Otherwise every
      argument is looked up in turn; a callback error is returned at once;
      and at the end "Some packages were not found" is returned when the
      reply holds fewer records than there were arguments — a comparison
      of counts, not of the per-argument `found` flags. */
  method MultiInfo(args: seq<string>, escape: string -> string,
                   aur: string -> Result<Response, Error>, f: Package -> Option<Error>)
    returns (calls: seq<Package>, notFound: seq<string>, err: Option<Error>)
    ensures aur(RequestPath(args, escape)).Failure? ==>
      calls == [] && notFound == [] && err == Some(aur(RequestPath(args, escape)).error)
    ensures aur(RequestPath(args, escape)).Success? ==>
      var results := aur(RequestPath(args, escape)).value.Results;
      var t := Reconcile(args, results, f);
      && calls == t.calls && notFound == t.notFound
      && err == (if t.failure.Some? then t.failure
                 else if |results| < |args| then Some(Error(NotFoundMessage))
                 else None)
  {
    var request := BuildRequest(args, escape);
    var response := aur(request);
    if response.Failure? {
      return [], [], Some(response.error);
    }
    var results := response.value.Results;
    calls, notFound := [], [];
    for arg := 0 to |args|
      invariant Reconcile(args[..arg], results, f) == Trace(calls, notFound, None)
    {
      assert args[..arg + 1][..arg] == args[..arg];
      var found := false;
      for j := 0 to |results|
        invariant forall m :: 0 <= m < j ==> results[m].Name != args[arg]
        invariant !found
      {
        if results[j].Name == args[arg] {
          assert FirstMatch(results, args[arg]) == Some(j);
          var e := f(results[j]);
          calls := calls + [results[j]];
          if e.Some? {
            ReconcileStopsAtFailure(args, results, f, arg + 1);
            return calls, notFound, e;
          }
          found := true;
          break;
        }
      }
      if !found {
        notFound := notFound + [args[arg]];
      }
    }
    assert args[..|args|] == args;
    if |results| < |args| {
      return calls, notFound, Some(Error(NotFoundMessage));
    }
    return calls, notFound, None;
  }
}
