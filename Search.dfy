/** The granule search: pages of the catalog's answer are requested one after another, from
    page 1, until a page lists no references; every reference's location is fetched for the
    download URL of its granule, and the granules are collected by name, in the order their
    names first appeared. The catalog and the location documents are inputs. */
module Search {
  import opened Results
  import opened Exceptions
  import opened Query

  /** One `reference` element of a result page. */
  datatype Reference = Reference(name: string, id: string, location: string, revisionId: string)

  /** A parsed result page: the total number of hits and the references on this page. */
  datatype Page = Page(hits: int, references: seq<Reference>)

  /** What the code keeps for a granule: `[id, location, revision_id, url]`. */
  datatype Granule = Granule(id: string, location: string, revisionId: string, url: string)

  /** The catalog: the parsed answer to a page request, or the failure of the request. */
  type Catalog = string -> Result<Page, Exception>

  /** The location documents: the texts of the `OnlineAccessURL/URL` elements of the document
      at a location, or the failure of its request. */
  type Locator = string -> Result<seq<string>, Exception>

  // ---------------------------------------------------------------------------------------
  // The granule dictionary
  // ---------------------------------------------------------------------------------------

  /** A dictionary from names to granules that remembers insertion order: `names` lists the
      keys in the order they were first inserted. */
  datatype GranuleTable = GranuleTable(names: seq<string>, entries: map<string, Granule>)

  predicate Distinct(s: seq<string>) {
    forall i, j :: 0 <= i < j < |s| ==> s[i] != s[j]
  }

  /** The order lists every key exactly once. */
  ghost predicate Valid(t: GranuleTable) {
    Distinct(t.names) && (forall n :: n in t.names <==> n in t.entries)
  }

  const EmptyTable := GranuleTable([], map[])

  /** `table[name] = granule`: a new name goes last, an existing one keeps its place and takes
      the new value. */
  function Insert(t: GranuleTable, name: string, g: Granule): (r: GranuleTable)
    ensures Valid(t) ==> Valid(r)
    ensures r.entries == t.entries[name := g]
    ensures t.names <= r.names
    ensures name in t.entries ==> r.names == t.names
    ensures name !in t.entries ==> r.names == t.names + [name]
  {
    if name in t.entries then GranuleTable(t.names, t.entries[name := g])
    else GranuleTable(t.names + [name], t.entries[name := g])
  }

  // ---------------------------------------------------------------------------------------
  // One page
  // ---------------------------------------------------------------------------------------

  /** The granule of one reference: its location document must hold exactly one URL, as the
      one-element unpacking demands. */
  function Resolve(r: Reference, locate: Locator): (res: Result<Granule, Exception>)
    ensures res.Success? <==> locate(r.location).Success? && |locate(r.location).value| == 1
    ensures res.Success? ==> res.value == Granule(r.id, r.location, r.revisionId, locate(r.location).value[0])
    ensures locate(r.location).Success? && |locate(r.location).value| != 1 ==>
      res == Failure(UnpackError(|locate(r.location).value|))
  {
    match locate(r.location)
    case Failure(e) => Failure(e)
    case Success(urls) =>
      if |urls| != 1 then Failure(UnpackError(|urls|))
      else Success(Granule(r.id, r.location, r.revisionId, urls[0]))
  }

  /** The references of one page from index `from` on, entered into the table in page order;
      the first reference that cannot be resolved ends the search with its failure. */
  function AddReferences(t: GranuleTable, refs: seq<Reference>, from: nat, locate: Locator)
    : (r: Result<GranuleTable, Exception>)
    ensures Valid(t) && r.Success? ==> Valid(r.value)
    decreases |refs| - from
  {
    if |refs| <= from then Success(t)
    else
      match Resolve(refs[from], locate)
      case Failure(e) => Failure(e)
      case Success(g) => AddReferences(Insert(t, refs[from].name, g), refs, from + 1, locate)
  }

  /** The set of names of the references from index `from` on. */
  function Names(refs: seq<Reference>, from: nat): set<string>
  {
    set i | from <= i < |refs| :: refs[i].name
  }

  /** Entering references keeps the table's earlier order and adds exactly their names; a
      valid table stays valid. */
  lemma {:induction false} AddReferencesKeys(t: GranuleTable, refs: seq<Reference>, from: nat, locate: Locator)
    requires AddReferences(t, refs, from, locate).Success?
    ensures var r := AddReferences(t, refs, from, locate).value;
      (Valid(t) ==> Valid(r)) && t.names <= r.names && r.entries.Keys == t.entries.Keys + Names(refs, from)
    decreases |refs| - from
  {
    if from < |refs| {
      var g := Resolve(refs[from], locate).value;
      var t' := Insert(t, refs[from].name, g);
      AddReferencesKeys(t', refs, from + 1, locate);
      NamesFrom(refs, from);
      assert t'.entries.Keys == t.entries.Keys + {refs[from].name};
    } else {
      assert Names(refs, from) == {};
    }
  }

  /** The names from `from` on are the name at `from` and the names after it. */
  lemma NamesFrom(refs: seq<Reference>, from: nat)
    requires from < |refs|
    ensures Names(refs, from) == {refs[from].name} + Names(refs, from + 1)
  {
  }

  /** A name keeps the granule of its last reference: when the reference at `i` is the last
      with its name, the table maps the name to that reference's granule. */
  lemma {:induction false} AddReferencesLastWins(t: GranuleTable, refs: seq<Reference>, from: nat, locate: Locator, i: nat)
    requires AddReferences(t, refs, from, locate).Success?
    requires from <= i < |refs|
    requires forall j :: i < j < |refs| ==> refs[j].name != refs[i].name
    ensures Resolve(refs[i], locate).Success?
    ensures refs[i].name in AddReferences(t, refs, from, locate).value.entries
    ensures AddReferences(t, refs, from, locate).value.entries[refs[i].name] == Resolve(refs[i], locate).value
    decreases |refs| - from
  {
    var g := Resolve(refs[from], locate).value;
    var t' := Insert(t, refs[from].name, g);
    if i == from {
      AddReferencesKeep(t', refs, from + 1, locate, refs[from].name);
    } else {
      AddReferencesLastWins(t', refs, from + 1, locate, i);
    }
  }

  /** A name that none of the references carries keeps its value. */
  lemma {:induction false} AddReferencesKeep(t: GranuleTable, refs: seq<Reference>, from: nat, locate: Locator, name: string)
    requires AddReferences(t, refs, from, locate).Success?
    requires name in t.entries
    requires forall j :: from <= j < |refs| ==> refs[j].name != name
    ensures name in AddReferences(t, refs, from, locate).value.entries
    ensures AddReferences(t, refs, from, locate).value.entries[name] == t.entries[name]
    decreases |refs| - from
  {
    if from < |refs| {
      var g := Resolve(refs[from], locate).value;
      AddReferencesKeep(Insert(t, refs[from].name, g), refs, from + 1, locate, name);
    }
  }

  /** The index of the first reference from `from` on that cannot be resolved, or the end of
      the page when all can. */
  function FirstUnresolved(refs: seq<Reference>, from: nat, locate: Locator): (k: nat)
    ensures from <= |refs| ==> from <= k <= |refs|
    ensures from > |refs| ==> k == from
    ensures k < |refs| ==> Resolve(refs[k], locate).Failure?
    ensures forall j :: from <= j < k && j < |refs| ==> Resolve(refs[j], locate).Success?
    decreases |refs| - from
  {
    if |refs| <= from then from
    else if Resolve(refs[from], locate).Failure? then from
    else FirstUnresolved(refs, from + 1, locate)
  }

  /** Adding fails exactly when some reference cannot be resolved, and then with the failure
      of the first such reference. */
  lemma {:induction false} AddReferencesFailure(t: GranuleTable, refs: seq<Reference>, from: nat, locate: Locator)
    ensures var k := FirstUnresolved(refs, from, locate);
      (AddReferences(t, refs, from, locate).Failure? <==> k < |refs|)
      && (k < |refs| ==> AddReferences(t, refs, from, locate).error == Resolve(refs[k], locate).error)
    decreases |refs| - from
  {
    if from < |refs| {
      match Resolve(refs[from], locate)
      case Failure(e) =>
      case Success(g) =>
        AddReferencesFailure(Insert(t, refs[from].name, g), refs, from + 1, locate);
    }
  }

  // ---------------------------------------------------------------------------------------
  // The pages
  // ---------------------------------------------------------------------------------------

  /** A page answer that ends the search: a failed request or a page without references. */
  predicate Stops(response: Result<Page, Exception>) {
    response.Failure? || |response.value.references| == 0
  }

  /** The catalog's answers, by page number. */
  type Answers = nat -> Result<Page, Exception>

  /** The answers to the page URLs of a query. */
  function PageAnswers(q: QueryFlags, catalog: Catalog): Answers
  {
    (n: nat) => catalog(PageUrl(q, n))
  }

  /** What is done with the references of one page. */
  type PageAdder = (GranuleTable, seq<Reference>) -> Result<GranuleTable, Exception>

  /** The loop over a page's references, with the location documents fixed. */
  function Adder(locate: Locator): PageAdder
  {
    (t: GranuleTable, refs: seq<Reference>) => AddReferences(t, refs, 0, locate)
  }

  /** The outcome of a search and the number of pages it requested. */
  datatype SearchRun = SearchRun(outcome: Result<GranuleTable, Exception>, pages: nat)

  /** The search from page `pageNum` on, with the granules found so far; `bound` is a page at
      which the answers are known to stop. */
  function Harvest(answers: Answers, add: PageAdder, pageNum: nat, bound: nat, t: GranuleTable): (run: SearchRun)
    requires 1 <= pageNum <= bound && Stops(answers(bound))
    ensures 1 <= run.pages <= bound - pageNum + 1
    decreases bound - pageNum
  {
    match answers(pageNum)
    case Failure(e) => SearchRun(Failure(e), 1)
    case Success(page) =>
      if |page.references| == 0 then SearchRun(Success(t), 1)
      else
        match add(t, page.references)
        case Failure(e) => SearchRun(Failure(e), 1)
        case Success(t') =>
          var rest := Harvest(answers, add, pageNum + 1, bound, t');
          SearchRun(rest.outcome, rest.pages + 1)
  }

  /** One pass of the paging loop, case by case. */
  lemma HarvestStep(answers: Answers, add: PageAdder, pageNum: nat, bound: nat, t: GranuleTable)
    requires 1 <= pageNum <= bound && Stops(answers(bound))
    ensures var run := Harvest(answers, add, pageNum, bound, t);
      var response := answers(pageNum);
      (response.Failure? ==> run == SearchRun(Failure(response.error), 1))
      && (response.Success? && |response.value.references| > 0 && add(t, response.value.references).Failure? ==>
            run == SearchRun(Failure(add(t, response.value.references).error), 1))
      && (response.Success? && |response.value.references| == 0 ==>
            run == SearchRun(Success(t), 1))
      && (response.Success? && |response.value.references| > 0 && add(t, response.value.references).Success? ==>
            pageNum < bound &&
            var rest := Harvest(answers, add, pageNum + 1, bound, add(t, response.value.references).value);
            run == SearchRun(rest.outcome, rest.pages + 1))
  {
  }

  /** The paging loop, `while FLAG`: request page 1, 2, ... until a page lists no references.
      The requested page URLs are returned beside the result. */
  method SearchGranules(q: QueryFlags, catalog: Catalog, locate: Locator, ghost bound: nat)
    returns (result: Result<GranuleTable, Exception>, requested: seq<string>)
    requires 1 <= bound && Stops(catalog(PageUrl(q, bound)))
    ensures SearchRun(result, |requested|) == Harvest(PageAnswers(q, catalog), Adder(locate), 1, bound, EmptyTable)
    ensures forall i :: 0 <= i < |requested| ==> requested[i] == PageUrl(q, i + 1)
  {
    ghost var answers := PageAnswers(q, catalog);
    ghost var add := Adder(locate);
    ghost var whole := Harvest(answers, add, 1, bound, EmptyTable);
    var pageNum: nat := 1;
    var granules := EmptyTable;
    var flag := true;
    requested := [];
    while flag
      invariant 1 <= pageNum <= bound
      invariant forall i :: 0 <= i < |requested| ==> requested[i] == PageUrl(q, i + 1)
      invariant flag ==> |requested| == pageNum - 1
      invariant flag ==> whole == Prefixed(pageNum - 1, Harvest(answers, add, pageNum, bound, granules))
      invariant !flag ==> whole == SearchRun(Success(granules), |requested|)
      decreases if flag then bound - pageNum + 1 else 0
    {
      var url := PageUrl(q, pageNum);
      RequestNext(q, requested, url);
      requested := requested + [url];
      var response := catalog(url);
      assert response == answers(pageNum);
      HarvestStep(answers, add, pageNum, bound, granules);
      if response.Failure? {
        return Failure(response.error), requested;
      }
      var references := response.value.references;
      flag := |references| > 0;
      var added := AddPage(granules, references, locate);
      assert added == add(granules, references);
      if added.Failure? {
        return Failure(added.error), requested;
      }
      granules := added.value;
      if flag {
        pageNum := pageNum + 1;
      }
    }
    result := Success(granules);
  }

  /** The page URLs requested so far, plus the next one, are the URLs of pages 1, 2, ... */
  lemma RequestNext(q: QueryFlags, requested: seq<string>, url: string)
    requires forall i :: 0 <= i < |requested| ==> requested[i] == PageUrl(q, i + 1)
    requires url == PageUrl(q, |requested| + 1)
    ensures forall i :: 0 <= i < |requested| + 1 ==> (requested + [url])[i] == PageUrl(q, i + 1)
  {
  }

  /** A search run after `done` pages already requested. */
  function Prefixed(done: nat, run: SearchRun): SearchRun
  {
    SearchRun(run.outcome, run.pages + done)
  }

  /** The loop over the references of one page, `for reference in references`. */
  method AddPage(t: GranuleTable, references: seq<Reference>, locate: Locator)
    returns (result: Result<GranuleTable, Exception>)
    ensures result == AddReferences(t, references, 0, locate)
  {
    var granules := t;
    var i := 0;
    while i < |references|
      invariant 0 <= i <= |references|
      invariant AddReferences(t, references, 0, locate) == AddReferences(granules, references, i, locate)
    {
      var r := references[i];
      var located := locate(r.location);
      if located.Failure? {
        return Failure(located.error);
      }
      var urls := located.value;
      if |urls| != 1 {
        return Failure(UnpackError(|urls|));
      }
      granules := Insert(granules, r.name, Granule(r.id, r.location, r.revisionId, urls[0]));
      i := i + 1;
    }
    result := Success(granules);
  }

  /** Every page requested before the last lists references: the search goes on exactly while
      pages are non-empty. */
  lemma {:induction false} HarvestPassesNonEmptyPages(answers: Answers, add: PageAdder,
                                                      pageNum: nat, bound: nat, t: GranuleTable)
    requires 1 <= pageNum <= bound && Stops(answers(bound))
    ensures var run := Harvest(answers, add, pageNum, bound, t);
      forall n :: pageNum <= n < pageNum + run.pages - 1 ==> !Stops(answers(n))
    decreases bound - pageNum
  {
    var response := answers(pageNum);
    if !Stops(response) && add(t, response.value.references).Success? {
      HarvestPassesNonEmptyPages(answers, add, pageNum + 1, bound, add(t, response.value.references).value);
    }
  }

  /** A successful search ends on the first page that lists no references. */
  lemma {:induction false} HarvestEndsOnEmptyPage(answers: Answers, add: PageAdder,
                                                  pageNum: nat, bound: nat, t: GranuleTable)
    requires 1 <= pageNum <= bound && Stops(answers(bound))
    ensures var run := Harvest(answers, add, pageNum, bound, t);
      run.outcome.Success? ==>
        answers(pageNum + run.pages - 1).Success? && |answers(pageNum + run.pages - 1).value.references| == 0
    decreases bound - pageNum
  {
    var response := answers(pageNum);
    if !Stops(response) && add(t, response.value.references).Success? {
      HarvestEndsOnEmptyPage(answers, add, pageNum + 1, bound, add(t, response.value.references).value);
    }
  }

  /** An empty first page ends the search with no granules after one request. */
  lemma EmptyFirstPage(answers: Answers, add: PageAdder, hits: int, bound: nat)
    requires answers(1) == Success(Page(hits, []))
    requires 1 <= bound && Stops(answers(bound))
    ensures Harvest(answers, add, 1, bound, EmptyTable) == SearchRun(Success(EmptyTable), 1)
  {
  }

  /** Two catalogs that list the same references on every page lead to the same search: the
      number of hits is never used. */
  lemma {:induction false} HitsAreIgnored(a1: Answers, a2: Answers, add: PageAdder,
                                          pageNum: nat, bound: nat, t: GranuleTable)
    requires 1 <= pageNum <= bound
    requires forall n :: a1(n).Failure? ==> a1(n) == a2(n)
    requires forall n :: a1(n).Success? ==> a2(n).Success? && a1(n).value.references == a2(n).value.references
    requires Stops(a1(bound))
    ensures Stops(a2(bound))
    ensures Harvest(a1, add, pageNum, bound, t) == Harvest(a2, add, pageNum, bound, t)
    decreases bound - pageNum
  {
    if a1(pageNum).Success? && |a1(pageNum).value.references| > 0 {
      var refs := a1(pageNum).value.references;
      if add(t, refs).Success? {
        HitsAreIgnored(a1, a2, add, pageNum + 1, bound, add(t, refs).value);
      }
    }
  }

  /** An adder that keeps the order of the names so far and keeps a table valid. */
  ghost predicate KeepsOrder(add: PageAdder) {
    forall t, refs :: add(t, refs).Success? ==>
      t.names <= add(t, refs).value.names && (Valid(t) ==> Valid(add(t, refs).value))
  }

  /** Entering a page's references keeps the order and the validity of the table. */
  lemma AdderKeepsOrder(locate: Locator)
    ensures KeepsOrder(Adder(locate))
  {
    forall t, refs | Adder(locate)(t, refs).Success?
      ensures t.names <= Adder(locate)(t, refs).value.names
    {
      AddReferencesKeys(t, refs, 0, locate);
    }
  }

  /** Every pass keeps the order of the names found so far, and a successful search from a
      valid table holds a valid table. */
  lemma {:induction false} HarvestKeepsOrder(answers: Answers, add: PageAdder,
                                             pageNum: nat, bound: nat, t: GranuleTable)
    requires 1 <= pageNum <= bound && Stops(answers(bound))
    requires KeepsOrder(add)
    ensures var run := Harvest(answers, add, pageNum, bound, t);
      run.outcome.Success? ==> t.names <= run.outcome.value.names && (Valid(t) ==> Valid(run.outcome.value))
    decreases bound - pageNum
  {
    var response := answers(pageNum);
    HarvestStep(answers, add, pageNum, bound, t);
    if !Stops(response) && add(t, response.value.references).Success? {
      var t' := add(t, response.value.references).value;
      assert t.names <= t'.names && (Valid(t) ==> Valid(t'));
      HarvestKeepsOrder(answers, add, pageNum + 1, bound, t');
    }
  }

  /** An adder that adds exactly the names of the page's references. */
  ghost predicate AddsNames(add: PageAdder) {
    forall t, refs :: add(t, refs).Success? ==>
      add(t, refs).value.entries.Keys == t.entries.Keys + Names(refs, 0)
  }

  /** Entering a page's references adds exactly their names. */
  lemma AdderAddsNames(locate: Locator)
    ensures AddsNames(Adder(locate))
  {
    forall t, refs | Adder(locate)(t, refs).Success?
      ensures Adder(locate)(t, refs).value.entries.Keys == t.entries.Keys + Names(refs, 0)
    {
      AddReferencesKeys(t, refs, 0, locate);
    }
  }

  /** The names on the pages `from` up to, not including, `to`. */
  ghost function PageNames(answers: Answers, from: nat, to: nat): set<string>
    decreases to - from
  {
    if to <= from then {}
    else
      var here := if answers(from).Success? then Names(answers(from).value.references, 0) else {};
      here + PageNames(answers, from + 1, to)
  }

  /** A successful search holds exactly the names it found so far and the names on the pages
      it requested before the empty page that ended it. */
  lemma {:induction false} HarvestKeys(answers: Answers, add: PageAdder,
                                       pageNum: nat, bound: nat, t: GranuleTable)
    requires 1 <= pageNum <= bound && Stops(answers(bound))
    requires AddsNames(add)
    ensures var run := Harvest(answers, add, pageNum, bound, t);
      run.outcome.Success? ==>
        run.outcome.value.entries.Keys == t.entries.Keys + PageNames(answers, pageNum, pageNum + run.pages - 1)
    decreases bound - pageNum
  {
    var response := answers(pageNum);
    HarvestStep(answers, add, pageNum, bound, t);
    var run := Harvest(answers, add, pageNum, bound, t);
    if !Stops(response) && add(t, response.value.references).Success? {
      var t' := add(t, response.value.references).value;
      assert t'.entries.Keys == t.entries.Keys + Names(response.value.references, 0);
      HarvestKeys(answers, add, pageNum + 1, bound, t');
      assert PageNames(answers, pageNum, pageNum + run.pages - 1)
        == Names(response.value.references, 0) + PageNames(answers, pageNum + 1, pageNum + run.pages - 1);
    } else {
      assert PageNames(answers, pageNum, pageNum + run.pages - 1) == {};
    }
  }

  /** An adder under which the last reference with a name decides that name's entry. */
  ghost predicate LastWins(add: PageAdder, locate: Locator) {
    forall t: GranuleTable, refs: seq<Reference>, i: int ::
      (add(t, refs).Success? && 0 <= i < |refs|
       && (forall j :: i < j < |refs| ==> refs[j].name != refs[i].name)) ==>
      (Resolve(refs[i], locate).Success? && refs[i].name in add(t, refs).value.entries
       && add(t, refs).value.entries[refs[i].name] == Resolve(refs[i], locate).value)
  }

  /** An adder that leaves the entries of names not on the page as they were. */
  ghost predicate KeepsOthers(add: PageAdder) {
    forall t: GranuleTable, refs: seq<Reference>, name: string ::
      add(t, refs).Success? && name in t.entries && name !in Names(refs, 0) ==>
      name in add(t, refs).value.entries && add(t, refs).value.entries[name] == t.entries[name]
  }

  /** Entering a page's references overwrites a name with its last reference. */
  lemma AdderLastWins(locate: Locator)
    ensures LastWins(Adder(locate), locate)
  {
    forall t: GranuleTable, refs: seq<Reference>, i: int |
      Adder(locate)(t, refs).Success? && 0 <= i < |refs|
      && (forall j :: i < j < |refs| ==> refs[j].name != refs[i].name)
      ensures Resolve(refs[i], locate).Success? && refs[i].name in Adder(locate)(t, refs).value.entries
        && Adder(locate)(t, refs).value.entries[refs[i].name] == Resolve(refs[i], locate).value
    {
      AddReferencesLastWins(t, refs, 0, locate, i);
    }
  }

  /** Entering a page's references leaves the other names' entries alone. */
  lemma AdderKeepsOthers(locate: Locator)
    ensures KeepsOthers(Adder(locate))
  {
    forall t: GranuleTable, refs: seq<Reference>, name: string | Adder(locate)(t, refs).Success? && name in t.entries && name !in Names(refs, 0)
      ensures name in Adder(locate)(t, refs).value.entries
        && Adder(locate)(t, refs).value.entries[name] == t.entries[name]
    {
      assert forall j :: 0 <= j < |refs| ==> refs[j].name in Names(refs, 0);
      AddReferencesKeep(t, refs, 0, locate, name);
    }
  }

  /** The names on the pages from `from` on are those of page `from` and those after it. */
  lemma PageNamesFrom(answers: Answers, from: nat, to: nat)
    requires from < to && answers(from).Success?
    ensures PageNames(answers, from, to) == Names(answers(from).value.references, 0) + PageNames(answers, from + 1, to)
  {
  }

  /** The number of the last page a search requests. */
  ghost function LastPage(answers: Answers, add: PageAdder, pageNum: nat, bound: nat, t: GranuleTable): nat
    requires 1 <= pageNum <= bound && Stops(answers(bound))
  {
    pageNum + Harvest(answers, add, pageNum, bound, t).pages - 1
  }

  /** What a search does after a page it enters: it goes on from the next page with the
      page's references entered. */
  lemma HarvestEnters(answers: Answers, add: PageAdder, pageNum: nat, bound: nat, t: GranuleTable)
    requires 1 <= pageNum <= bound && Stops(answers(bound))
    requires Harvest(answers, add, pageNum, bound, t).pages >= 2
    ensures !Stops(answers(pageNum)) && add(t, answers(pageNum).value.references).Success? && pageNum < bound
    ensures var t' := add(t, answers(pageNum).value.references).value;
      var run := Harvest(answers, add, pageNum, bound, t);
      var rest := Harvest(answers, add, pageNum + 1, bound, t');
      run.outcome == rest.outcome && run.pages == rest.pages + 1
    ensures LastPage(answers, add, pageNum, bound, t)
      == LastPage(answers, add, pageNum + 1, bound, add(t, answers(pageNum).value.references).value)
  {
    HarvestStep(answers, add, pageNum, bound, t);
  }

  /** An entry whose name appears on none of the pages a search enters keeps its granule. */
  lemma {:induction false} HarvestKeepsEntry(answers: Answers, add: PageAdder,
                                             pageNum: nat, bound: nat, t: GranuleTable, name: string)
    requires 1 <= pageNum <= bound && Stops(answers(bound))
    requires KeepsOthers(add) && name in t.entries
    ensures var run := Harvest(answers, add, pageNum, bound, t);
      run.outcome.Success? && name !in PageNames(answers, pageNum, LastPage(answers, add, pageNum, bound, t)) ==>
        name in run.outcome.value.entries && run.outcome.value.entries[name] == t.entries[name]
    decreases bound - pageNum
  {
    var run := Harvest(answers, add, pageNum, bound, t);
    if run.pages == 1 {
      HarvestStep(answers, add, pageNum, bound, t);
    } else if name !in PageNames(answers, pageNum, LastPage(answers, add, pageNum, bound, t)) {
      HarvestEnters(answers, add, pageNum, bound, t);
      var refs := answers(pageNum).value.references;
      var t' := add(t, refs).value;
      PageNamesFrom(answers, pageNum, LastPage(answers, add, pageNum, bound, t));
      assert name !in Names(refs, 0);
      assert t'.entries[name] == t.entries[name];
      HarvestKeepsEntry(answers, add, pageNum + 1, bound, t', name);
    }
  }

  /** The table a search holds when it reaches page `n`, having entered the pages from
      `pageNum` up to `n`. */
  ghost function TableAt(answers: Answers, add: PageAdder, pageNum: nat, bound: nat, t: GranuleTable, n: nat)
    : GranuleTable
    decreases n - pageNum
  {
    if n <= pageNum || pageNum >= bound || Stops(answers(pageNum)) then t
    else match add(t, answers(pageNum).value.references)
      case Failure(_) => t
      case Success(t') => TableAt(answers, add, pageNum + 1, bound, t', n)
  }

  /** A search that requests page `n` goes on from there as the search from page `n` with
      the table it holds there. */
  lemma {:induction false} HarvestReaches(answers: Answers, add: PageAdder, pageNum: nat, bound: nat,
                                          t: GranuleTable, n: nat)
    requires 1 <= pageNum <= bound && Stops(answers(bound))
    requires pageNum <= n < pageNum + Harvest(answers, add, pageNum, bound, t).pages
    ensures n <= bound
    ensures var run := Harvest(answers, add, pageNum, bound, t);
      var rest := Harvest(answers, add, n, bound, TableAt(answers, add, pageNum, bound, t, n));
      run.outcome == rest.outcome && run.pages == rest.pages + (n - pageNum)
    ensures LastPage(answers, add, pageNum, bound, t)
      == LastPage(answers, add, n, bound, TableAt(answers, add, pageNum, bound, t, n))
    decreases n - pageNum
  {
    if n > pageNum {
      HarvestEnters(answers, add, pageNum, bound, t);
      var t' := add(t, answers(pageNum).value.references).value;
      HarvestReaches(answers, add, pageNum + 1, bound, t', n);
    }
  }

  /** A later duplicate overwrites an earlier one across pages too: when the reference at
      index `i` of page `n` is the last with its name on that page and no later page before
      the empty one names it again, the search's table maps the name to its granule.
      (Every page `n` before the last one requested is a successful, non-empty answer.) */
  lemma {:induction false} HarvestLastWins(answers: Answers, add: PageAdder, locate: Locator,
                                           pageNum: nat, bound: nat, t: GranuleTable, n: nat, i: nat)
    requires 1 <= pageNum <= bound && Stops(answers(bound))
    requires LastWins(add, locate) && KeepsOthers(add)
    requires var run := Harvest(answers, add, pageNum, bound, t);
      run.outcome.Success? && pageNum <= n < LastPage(answers, add, pageNum, bound, t)
      && answers(n).Success? && i < |answers(n).value.references|
      && (forall j :: i < j < |answers(n).value.references| ==>
            answers(n).value.references[j].name != answers(n).value.references[i].name)
      && answers(n).value.references[i].name !in PageNames(answers, n + 1, LastPage(answers, add, pageNum, bound, t))
    ensures var run := Harvest(answers, add, pageNum, bound, t);
      var r := answers(n).value.references[i];
      Resolve(r, locate).Success? && r.name in run.outcome.value.entries
      && run.outcome.value.entries[r.name] == Resolve(r, locate).value
  {
    HarvestReaches(answers, add, pageNum, bound, t, n);
    var tn := TableAt(answers, add, pageNum, bound, t, n);
    HarvestEnters(answers, add, n, bound, tn);
    var refs := answers(n).value.references;
    assert Resolve(refs[i], locate).Success? && refs[i].name in add(tn, refs).value.entries
      && add(tn, refs).value.entries[refs[i].name] == Resolve(refs[i], locate).value;
    HarvestKeepsPageEntry(answers, add, n, bound, tn, refs[i].name);
  }

  /** The same for the search `SearchGranules` runs: the granule a name ends with is the one
      of its last reference on the last page, before the empty one, that names it. */
  lemma SearchLastWins(answers: Answers, locate: Locator, bound: nat, n: nat, i: nat)
    requires 1 <= bound && Stops(answers(bound))
    requires var run := Harvest(answers, Adder(locate), 1, bound, EmptyTable);
      run.outcome.Success? && 1 <= n < LastPage(answers, Adder(locate), 1, bound, EmptyTable)
      && answers(n).Success? && i < |answers(n).value.references|
      && (forall j :: i < j < |answers(n).value.references| ==>
            answers(n).value.references[j].name != answers(n).value.references[i].name)
      && answers(n).value.references[i].name
         !in PageNames(answers, n + 1, LastPage(answers, Adder(locate), 1, bound, EmptyTable))
    ensures var run := Harvest(answers, Adder(locate), 1, bound, EmptyTable);
      var r := answers(n).value.references[i];
      Resolve(r, locate).Success? && r.name in run.outcome.value.entries
      && run.outcome.value.entries[r.name] == Resolve(r, locate).value
  {
    AdderLastWins(locate);
    AdderKeepsOthers(locate);
    HarvestLastWins(answers, Adder(locate), locate, 1, bound, EmptyTable, n, i);
  }

  /** A name a page enters keeps its granule to the end of the search when no later page
      before the empty one names it again. */
  lemma {:induction false} HarvestKeepsPageEntry(answers: Answers, add: PageAdder,
                                                 n: nat, bound: nat, t: GranuleTable, name: string)
    requires 1 <= n <= bound && Stops(answers(bound))
    requires KeepsOthers(add)
    requires Harvest(answers, add, n, bound, t).outcome.Success? && n < LastPage(answers, add, n, bound, t)
    requires answers(n).Success? && add(t, answers(n).value.references).Success?
      && name in add(t, answers(n).value.references).value.entries
      && name !in PageNames(answers, n + 1, LastPage(answers, add, n, bound, t))
    ensures name in Harvest(answers, add, n, bound, t).outcome.value.entries
      && Harvest(answers, add, n, bound, t).outcome.value.entries[name]
         == add(t, answers(n).value.references).value.entries[name]
  {
    HarvestEnters(answers, add, n, bound, t);
    HarvestKeepsEntry(answers, add, n + 1, bound, add(t, answers(n).value.references).value, name);
  }
}
