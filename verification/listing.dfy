/** The `list` command (listProducts): checks the requested product type, pages
    through ListEntities for each selected type, skips a type the catalog rejects as
    an unknown entity type, and prints the names of each type that has products,
    sorted. */
module Listing {
  import opened Common
  import opened Strings
  import Catalog

  /** The answers that successive ListEntities calls for one type give: every answer
      but the last is a page with a continuation token, and the last is an error or
      a page without one. The Go loop reads exactly these answers. */
  predicate Ends(rs: seq<Result<Page, ApiError>>)
  {
    && |rs| > 0
    && (forall i :: 0 <= i < |rs| - 1 ==> rs[i].Success? && rs[i].value.nextToken.Some?)
    && (rs[|rs| - 1].Success? ==> rs[|rs| - 1].value.nextToken.None?)
  }

  /** The product names on one page, in order. */
  function Names(p: Page): (names: seq<string>)
    ensures |names| == |p.entities|
    ensures forall k :: 0 <= k < |p.entities| ==> names[k] == p.entities[k].name
  {
    seq(|p.entities|, k requires 0 <= k < |p.entities| => p.entities[k].name)
  }

  /** The names of a run of pages, appended page after page. */
  function Concat(rs: seq<Result<Page, ApiError>>): seq<string>
    requires forall i :: 0 <= i < |rs| ==> rs[i].Success?
  {
    if rs == [] then [] else Concat(rs[..|rs| - 1]) + Names(rs[|rs| - 1].value)
  }

  /** A name is listed exactly when some page carries it. */
  lemma {:induction false} ConcatHoldsPageNames(rs: seq<Result<Page, ApiError>>, x: string)
    requires forall i :: 0 <= i < |rs| ==> rs[i].Success?
    ensures x in Concat(rs) <==>
              exists i, k :: 0 <= i < |rs| && 0 <= k < |rs[i].value.entities| && rs[i].value.entities[k].name == x
  {
    if rs != [] {
      var front, last := rs[..|rs| - 1], rs[|rs| - 1].value;
      ConcatHoldsPageNames(front, x);
      if x in Concat(rs) {
        if x in Names(last) {
          var k :| 0 <= k < |Names(last)| && Names(last)[k] == x;
          assert rs[|rs| - 1].value.entities[k].name == x;
        } else {
          assert x in Concat(front);
          var i, k :| 0 <= i < |front| && 0 <= k < |front[i].value.entities| && front[i].value.entities[k].name == x;
          assert rs[i] == front[i];
        }
      } else {
        forall i, k | 0 <= i < |rs| && 0 <= k < |rs[i].value.entities|
          ensures rs[i].value.entities[k].name != x
        {
          if i < |rs| - 1 {
            assert rs[i] == front[i];
          } else {
            assert Names(last)[k] == rs[i].value.entities[k].name;
          }
        }
      }
    }
  }

  /** The listing of one type: its names, nothing for a skipped type, or the error
      that aborts the command. */
  function ListType(productType: string, rs: seq<Result<Page, ApiError>>): Result<seq<string>, Error>
    requires Ends(rs)
  {
    match rs[0]
    case Failure(e) =>
      if e.isValidation && Contains(e.message, "entity type") then Success([])
      else Failure(ListFailed(productType, e))
    case Success(_) =>
      var last := rs[|rs| - 1];
      if last.Failure? then Failure(PaginationFailed(productType, last.error))
      else Success(Concat(rs))
  }

  /** The error rules of one type's listing: a failing first call is skipped exactly
      when it is a validation error about the entity type; any failing later call
      aborts with a pagination error; otherwise the names of every page are listed. */
  lemma ListTypeRules(productType: string, rs: seq<Result<Page, ApiError>>)
    requires Ends(rs)
    ensures rs[0].Failure? ==>
              var e := rs[0].error;
              && (ListType(productType, rs).Success? <==> e.isValidation && Contains(e.message, "entity type"))
              && (ListType(productType, rs).Success? ==> ListType(productType, rs).value == [])
              && (ListType(productType, rs).Failure? ==> ListType(productType, rs).error == ListFailed(productType, e))
    ensures rs[0].Success? ==>
              && (ListType(productType, rs).Failure? <==> exists i :: 0 < i < |rs| && rs[i].Failure?)
              && (ListType(productType, rs).Failure? ==>
                    ListType(productType, rs).error == PaginationFailed(productType, rs[|rs| - 1].error))
              && (ListType(productType, rs).Success? ==> ListType(productType, rs).value == Concat(rs))
  {
    if rs[0].Success? && rs[|rs| - 1].Failure? {
      assert 0 < |rs| - 1;
    }
  }

  /** One type's listing as the Go code runs it: the first call, then a loop that
      appends each page's names and follows the continuation token. */
  method ListEntityType(productType: string, rs: seq<Result<Page, ApiError>>)
    returns (r: Result<seq<string>, Error>)
    requires Ends(rs)
    ensures r == ListType(productType, rs)
  {
    var resp := rs[0];
    if resp.Failure? {
      if resp.error.isValidation && Contains(resp.error.message, "entity type") {
        return Success([]);
      }
      return Failure(ListFailed(productType, resp.error));
    }
    var products: seq<string> := [];
    var page := resp.value;
    var i := 0;
    while true
      invariant 0 <= i < |rs| && rs[i] == Success(page)
      invariant products == Concat(rs[..i])
      decreases |rs| - i
    {
      products := products + Names(page);
      assert rs[..i + 1][..i] == rs[..i];
      if page.nextToken.None? {
        break;
      }
      i := i + 1;
      if rs[i].Failure? {
        return Failure(PaginationFailed(productType, rs[i].error));
      }
      page := rs[i].value;
    }
    assert rs[..i + 1] == rs;
    return Success(products);
  }

  /** A product type and its names. */
  datatype Group = Group(productType: string, names: seq<string>)

  /** The message printed when no type has products. */
  datatype Notice = NoProductsInAnyCategory | NoProductsOfType(requested: string)

  /** What the command prints (the groups, then a notice) and the error it returns,
      if any; groups printed before an error stay printed. */
  datatype Listing = Listing(groups: seq<Group>, notice: Option<Notice>, error: Option<Error>)

  /** The group kept for a type with these names: none when there are none. */
  function GroupOf(productType: string, names: seq<string>): seq<Group>
  {
    if names == [] then [] else [Group(productType, names)]
  }

  /** The groups as printed: each type's names sorted with sort.Strings. */
  function Printed(groups: seq<Group>): seq<Group>
  {
    if groups == [] then []
    else
      var last := groups[|groups| - 1];
      Printed(groups[..|groups| - 1]) + [Group(last.productType, SortStrings(last.names))]
  }

  /** Printing keeps the types and their order, and prints each type's names as
      their sorted permutation (SortStrings). */
  lemma {:induction false} PrintedSortsEachGroup(groups: seq<Group>)
    ensures |Printed(groups)| == |groups|
    ensures forall k :: 0 <= k < |groups| ==>
              Printed(groups)[k] == Group(groups[k].productType, SortStrings(groups[k].names))
  {
    if groups != [] {
      var front := groups[..|groups| - 1];
      PrintedSortsEachGroup(front);
      forall k | 0 <= k < |groups| - 1
        ensures Printed(groups)[k] == Group(groups[k].productType, SortStrings(groups[k].names))
      {
        assert groups[k] == front[k];
      }
    }
  }

  predicate AllEnd(types: seq<string>, answers: string -> seq<Result<Page, ApiError>>)
  {
    forall i :: 0 <= i < |types| ==> Ends(answers(types[i]))
  }

  /** The outcome of listing each selected type. */
  function Outcomes(types: seq<string>, answers: string -> seq<Result<Page, ApiError>>): (outs: seq<Result<seq<string>, Error>>)
    requires AllEnd(types, answers)
    ensures |outs| == |types|
    ensures forall k :: 0 <= k < |types| ==> outs[k] == ListType(types[k], answers(types[k]))
  {
    seq(|types|, k requires 0 <= k < |types| => ListType(types[k], answers(types[k])))
  }

  /** The loop over the selected types from position `i` on, given the outcome of
      listing each: the groups printed, and the error that stopped it. */
  function RunOver(types: seq<string>, outs: seq<Result<seq<string>, Error>>, i: nat): (seq<Group>, Option<Error>)
    requires |outs| == |types| && i <= |types|
    decreases |types| - i
  {
    if i == |types| then ([], None)
    else
      match outs[i]
      case Failure(e) => ([], Some(e))
      case Success(names) =>
        var rest := RunOver(types, outs, i + 1);
        (GroupOf(types[i], names) + rest.0, rest.1)
  }

  function Run(types: seq<string>, answers: string -> seq<Result<Page, ApiError>>): (seq<Group>, Option<Error>)
    requires AllEnd(types, answers)
  {
    RunOver(types, Outcomes(types, answers), 0)
  }

  /** The types the command lists: all of them, or the requested one if it is valid. */
  function SelectTypes(requested: string): Result<seq<string>, Error>
  {
    if requested == "all" then Success(Catalog.ProductTypes)
    else if requested in Catalog.ProductTypes then Success([requested])
    else Failure(InvalidProductType(requested))
  }

  /** listProducts. */
  function ListProducts(requested: string, answers: string -> seq<Result<Page, ApiError>>): Listing
    requires AllEnd(Catalog.ProductTypes, answers)
  {
    match SelectTypes(requested)
    case Failure(e) => Listing([], None, Some(e))
    case Success(types) =>
      var (listed, err) := Run(types, answers);
      var groups := Printed(listed);
      var notice :=
        if err.None? && groups == [] then
          Some(if requested == "all" then NoProductsInAnyCategory else NoProductsOfType(requested))
        else None;
      Listing(groups, notice, err)
  }

  /** Every group kept belongs to a type whose listing has names, and holds
      exactly those names. */
  lemma {:induction false} RunGroupsAreListings(types: seq<string>, outs: seq<Result<seq<string>, Error>>, i: nat)
    requires |outs| == |types| && i <= |types|
    ensures forall g :: g in RunOver(types, outs, i).0 ==>
              && g.names != []
              && exists k :: i <= k < |types| && g.productType == types[k] && outs[k] == Success(g.names)
    decreases |types| - i
  {
    if i < |types| && outs[i].Success? {
      RunGroupsAreListings(types, outs, i + 1);
    }
  }

  /** The groups of the types from `lo` up to `hi`, in type order: each type whose
      listing gave names contributes one group, appended after the earlier ones. */
  function Collected(types: seq<string>, outs: seq<Result<seq<string>, Error>>, lo: nat, hi: nat): seq<Group>
    requires |outs| == |types| && lo <= hi <= |types|
    requires forall k :: lo <= k < hi ==> outs[k].Success?
    decreases hi
  {
    if hi == lo then [] else Collected(types, outs, lo, hi - 1) + GroupOf(types[hi - 1], outs[hi - 1].value)
  }

  /** The first type's group comes first. */
  lemma {:induction false} CollectedFront(types: seq<string>, outs: seq<Result<seq<string>, Error>>, lo: nat, hi: nat)
    requires |outs| == |types| && lo < hi <= |types|
    requires forall k :: lo <= k < hi ==> outs[k].Success?
    ensures Collected(types, outs, lo, hi) == GroupOf(types[lo], outs[lo].value) + Collected(types, outs, lo + 1, hi)
    decreases hi
  {
    if hi > lo + 1 {
      CollectedFront(types, outs, lo, hi - 1);
      var g, rest, last := GroupOf(types[lo], outs[lo].value), Collected(types, outs, lo + 1, hi - 1),
                           GroupOf(types[hi - 1], outs[hi - 1].value);
      assert (g + rest) + last == g + (rest + last);
    } else {
      assert GroupOf(types[lo], outs[lo].value) + [] == GroupOf(types[lo], outs[lo].value);
    }
  }

  /** A group is collected exactly when some type in the range listed names, and
      it holds that type and its names. */
  lemma {:induction false} CollectedMembers(types: seq<string>, outs: seq<Result<seq<string>, Error>>,
                                            lo: nat, hi: nat, g: Group)
    requires |outs| == |types| && lo <= hi <= |types|
    requires forall k :: lo <= k < hi ==> outs[k].Success?
    ensures g in Collected(types, outs, lo, hi) <==>
              exists k :: lo <= k < hi && outs[k].value != [] && g == Group(types[k], outs[k].value)
    decreases hi
  {
    if hi > lo {
      CollectedMembers(types, outs, lo, hi - 1, g);
      var k := hi - 1;
      if g in GroupOf(types[k], outs[k].value) {
        assert g == Group(types[k], outs[k].value);
      }
    }
  }

  /** The loop prints the groups of every type before the one that stops it (or of
      every type, when none fails), in type order. */
  lemma {:induction false} RunPrintsInOrder(types: seq<string>, outs: seq<Result<seq<string>, Error>>, i: nat, n: nat)
    requires |outs| == |types| && i <= n <= |types|
    requires forall k :: i <= k < n ==> outs[k].Success?
    requires n < |types| ==> outs[n].Failure?
    ensures RunOver(types, outs, i).0 == Collected(types, outs, i, n)
    decreases n - i
  {
    if i < n {
      RunPrintsInOrder(types, outs, i + 1, n);
      CollectedFront(types, outs, i, n);
    }
  }

  /** The loop stops at the first type whose listing fails, with that error, and
      runs to the end exactly when no listing fails. */
  lemma {:induction false} RunStopsAtFirstError(types: seq<string>, outs: seq<Result<seq<string>, Error>>, i: nat)
    requires |outs| == |types| && i <= |types|
    ensures RunOver(types, outs, i).1.None? <==> forall k :: i <= k < |types| ==> outs[k].Success?
    ensures RunOver(types, outs, i).1.Some? ==>
              exists k :: i <= k < |types| && outs[k] == Failure(RunOver(types, outs, i).1.value) &&
                forall j :: i <= j < k ==> outs[j].Success?
    decreases |types| - i
  {
    if i < |types| && outs[i].Success? {
      RunStopsAtFirstError(types, outs, i + 1);
      var rest := RunOver(types, outs, i + 1);
      assert RunOver(types, outs, i).1 == rest.1;
      if rest.1.Some? {
        var k :| i + 1 <= k < |types| && outs[k] == Failure(rest.1.value) &&
                 forall j :: i + 1 <= j < k ==> outs[j].Success?;
        assert forall j :: i <= j < k ==> outs[j].Success?;
      }
    }
  }

  /** Nothing is printed and nothing fails exactly when every selected type lists
      no name. */
  lemma {:induction false} RunEmpty(types: seq<string>, outs: seq<Result<seq<string>, Error>>, i: nat)
    requires |outs| == |types| && i <= |types|
    ensures RunOver(types, outs, i) == ([], None) <==> forall k :: i <= k < |types| ==> outs[k] == Success([])
    decreases |types| - i
  {
    if i < |types| {
      RunEmpty(types, outs, i + 1);
      var rest := RunOver(types, outs, i + 1);
      if outs[i].Success? {
        if outs[i].value != [] {
          assert RunOver(types, outs, i).0 == [Group(types[i], outs[i].value)] + rest.0;
        } else {
          assert RunOver(types, outs, i) == ([] + rest.0, rest.1);
          assert [] + rest.0 == rest.0;
        }
      }
    }
  }

  /** The requested type decides the listing: an invalid one fails before any call,
      a valid one narrows the listing to that type's answers alone, and the notice
      appears exactly when nothing was printed and nothing failed. */
  lemma ListProductsRules(requested: string, answers: string -> seq<Result<Page, ApiError>>)
    requires AllEnd(Catalog.ProductTypes, answers)
    ensures requested != "all" && requested !in Catalog.ProductTypes ==>
              ListProducts(requested, answers) == Listing([], None, Some(InvalidProductType(requested)))
    ensures requested != "all" && requested in Catalog.ProductTypes ==>
              var listed := ListType(requested, answers(requested));
              && ListProducts(requested, answers).groups ==
                   (if listed.Success? then Printed(GroupOf(requested, listed.value)) else [])
              && ListProducts(requested, answers).error == (if listed.Failure? then Some(listed.error) else None)
    ensures ListProducts(requested, answers).notice.Some? <==>
              ListProducts(requested, answers).error.None? && ListProducts(requested, answers).groups == []
    ensures ListProducts(requested, answers).notice.Some? ==>
              ListProducts(requested, answers).notice.value ==
                (if requested == "all" then NoProductsInAnyCategory else NoProductsOfType(requested))
  {
    if requested != "all" && requested in Catalog.ProductTypes {
      var i :| 0 <= i < |Catalog.ProductTypes| && Catalog.ProductTypes[i] == requested;
      assert Ends(answers(requested));
      var one := [requested];
      assert one[1..] == [];
    }
  }

  /** The validation loop: looks for the requested type among the valid ones and
      narrows the list to it. */
  method CheckRequestedType(requested: string) returns (r: Result<seq<string>, Error>)
    ensures r == SelectTypes(requested)
  {
    var types := Catalog.ProductTypes;
    if requested != "all" {
      var found := false;
      var k := 0;
      while k < |types|
        invariant 0 <= k <= |types|
        invariant forall j :: 0 <= j < k ==> types[j] != requested
      {
        if types[k] == requested {
          found := true;
          break;
        }
        k := k + 1;
      }
      if !found {
        return Failure(InvalidProductType(requested));
      }
      types := [requested];
    }
    return Success(types);
  }

  /** One step of the loop over the types. */
  lemma RunOverStep(types: seq<string>, outs: seq<Result<seq<string>, Error>>, i: nat, listed: seq<Group>)
    requires |outs| == |types| && i < |types|
    ensures outs[i].Failure? ==> listed + RunOver(types, outs, i).0 == listed
    ensures outs[i].Failure? ==> RunOver(types, outs, i).1 == Some(outs[i].error)
    ensures outs[i].Success? ==>
              && (listed + GroupOf(types[i], outs[i].value)) + RunOver(types, outs, i + 1).0 ==
                 listed + RunOver(types, outs, i).0
              && RunOver(types, outs, i + 1).1 == RunOver(types, outs, i).1
  {
    if outs[i].Success? {
      var rest := RunOver(types, outs, i + 1).0;
      assert (listed + GroupOf(types[i], outs[i].value)) + rest == listed + (GroupOf(types[i], outs[i].value) + rest);
    } else {
      assert listed + [] == listed;
    }
  }

  /** Printing one more group prints it after the others. */
  lemma PrintedAppend(groups: seq<Group>, g: Group)
    ensures Printed(groups + [g]) == Printed(groups) + [Group(g.productType, SortStrings(g.names))]
  {
    assert (groups + [g])[..|groups|] == groups;
  }

  /** Sorts a type's names with sort.Strings and prints them after the groups
      printed so far. */
  method PrintGroup(groups: seq<Group>, ghost listed: seq<Group>, productType: string, names: seq<string>)
    returns (printed: seq<Group>)
    requires groups == Printed(listed)
    ensures printed == Printed(listed + [Group(productType, names)])
  {
    PrintedAppend(listed, Group(productType, names));
    printed := groups + [Group(productType, SortStrings(names))];
  }

  /** The loop over the selected types: each is listed with its pagination loop,
      and a type with names is printed sorted. */
  method ListTypes(types: seq<string>, answers: string -> seq<Result<Page, ApiError>>)
    returns (groups: seq<Group>, err: Option<Error>)
    requires AllEnd(types, answers)
    ensures groups == Printed(Run(types, answers).0)
    ensures err == Run(types, answers).1
  {
    ghost var outs := Outcomes(types, answers);
    ghost var listed: seq<Group> := [];
    groups := [];
    var i := 0;
    while i < |types|
      invariant 0 <= i <= |types|
      invariant groups == Printed(listed)
      invariant RunOver(types, outs, i).1 == RunOver(types, outs, 0).1
      invariant listed + RunOver(types, outs, i).0 == RunOver(types, outs, 0).0
    {
      var names := ListEntityType(types[i], answers(types[i]));
      RunOverStep(types, outs, i, listed);
      if names.Failure? {
        return groups, Some(names.error);
      }
      if |names.value| > 0 {
        groups := PrintGroup(groups, listed, types[i], names.value);
        listed := listed + [Group(types[i], names.value)];
      } else {
        assert listed + [] == listed;
      }
      i := i + 1;
    }
    assert listed + [] == listed;
    return groups, None;
  }

  /** listProducts as the Go code runs it. */
  method ListProductsCommand(requested: string, answers: string -> seq<Result<Page, ApiError>>)
    returns (out: Listing)
    requires AllEnd(Catalog.ProductTypes, answers)
    ensures out == ListProducts(requested, answers)
  {
    var types := CheckRequestedType(requested);
    if types.Failure? {
      return Listing([], None, Some(types.error));
    }
    assert AllEnd(types.value, answers);
    var groups, err := ListTypes(types.value, answers);
    if err.Some? {
      return Listing(groups, None, err);
    }
    var notice: Option<Notice> := None;
    if |groups| == 0 {
      notice := Some(if requested == "all" then NoProductsInAnyCategory else NoProductsOfType(requested));
    }
    return Listing(groups, notice, None);
  }
}
