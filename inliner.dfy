/** The resource inliner of `buildSvgDataURI`: extract the references,
    deduplicate and filter them, fetch each one (`useFetcher`) and substitute
    the results into the content. */
module Inliner {
  import opened Wrappers
  import opened Text
  import opened Sequences
  import opened JsString

  /** The helpers imported from `./lib`, which is not part of this model:
      the two extractors and the two normalisers. */
  datatype Lib = Lib(
    imageUrlsFromHtml: string -> seq<string>,
    urlsFromCss: string -> seq<string>,
    descape: string -> string,
    removeQuotes: string -> string)

  /** The string the fetcher receives for a raw reference:
      `removeQuotes(descape(resource))`. */
  function FetchKey(lib: Lib, resource: string): string {
    lib.removeQuotes(lib.descape(resource))
  }

  /** `resources`: the references in `<img src>` and `<image href>`, then
      those in `url(...)`, both taken from the whole content. */
  function ExtractedResources(lib: Lib, content: string): seq<string> {
    lib.imageUrlsFromHtml(content) + lib.urlsFromCss(content)
  }

  /** `uniqueResources` after the optional `filterer`. */
  function SelectedResources(lib: Lib, content: string, filterer: Option<string -> bool>): seq<string> {
    var unique := Dedup(ExtractedResources(lib, content));
    match filterer
    case None => unique
    case Some(keep) => Filter(keep, unique)
  }

  /** The selection holds each extracted reference the filterer keeps, once,
      in the order of first occurrence, and nothing else. */
  lemma SelectedResourcesSpec(lib: Lib, content: string, filterer: Option<string -> bool>)
    ensures NoDuplicates(SelectedResources(lib, content, filterer))
    ensures IsSubsequence(SelectedResources(lib, content, filterer), Dedup(ExtractedResources(lib, content)))
    ensures forall u :: u in SelectedResources(lib, content, filterer) <==>
      u in ExtractedResources(lib, content) && (filterer.None? || filterer.value(u))
  {
    var all := ExtractedResources(lib, content);
    var unique := Dedup(all);
    var selected := SelectedResources(lib, content, filterer);
    match filterer
    case None =>
      DedupOfDistinct(unique);
      FilterIsSubsequence(_ => true, unique);
      assert Filter(_ => true, unique) == unique by {
        FilterAllKept(unique);
      }
    case Some(keep) =>
      FilterKeepsDistinct(keep, unique);
      FilterIsSubsequence(keep, unique);
    forall u ensures u in selected <==> u in all && (filterer.None? || filterer.value(u)) {
      if u in all {
        var i :| 0 <= i < |all| && all[i] == u;
        assert all[i] in unique;
      }
      if u in unique {
        var i :| 0 <= i < |unique| && unique[i] == u;
        assert unique[i] in all;
      }
      if u in selected && filterer.Some? {
        var i :| 0 <= i < |selected| && selected[i] == u;
        assert selected[i] in unique;
      }
      if u in unique && filterer.Some? && filterer.value(u) {
        var i :| 0 <= i < |unique| && unique[i] == u;
        assert unique[i] in selected;
      }
    }
  }

  lemma {:induction false} FilterAllKept(xs: seq<string>)
    ensures Filter(_ => true, xs) == xs
  {
    if xs != [] {
      FilterAllKept(xs[1..]);
    }
  }

  /** One entry of `base64Resources`: the raw reference and what the fetcher
      resolved for it. */
  datatype ResourceResult = ResourceResult(reference: string, fetched: string)

  /** The order in which the `n` fetches settle: every index once. */
  predicate IsCompletionOrder(order: seq<nat>, n: nat) {
    && |order| == n
    && (forall k :: 0 <= k < n ==> order[k] < n)
    && (forall k, l :: 0 <= k < l < n ==> order[k] != order[l])
    && (forall i :: 0 <= i < n ==> i in order)
  }

  /** How the fetch of the reference that settles `k`-th settled. */
  function Settled(resources: seq<string>, fetcher: string -> Promised<string>, lib: Lib, order: seq<nat>, k: nat): Promised<string>
    requires k < |order| && order[k] < |resources|
  {
    fetcher(FetchKey(lib, resources[order[k]]))
  }

  /** What `useFetcher` resolves or rejects with when the fetches settle in
      `order`: `Promise.all` rejects with the first rejection to arrive;
      otherwise the results are listed in the order they arrived. */
  function FetchInOrder(resources: seq<string>, fetcher: string -> Promised<string>, lib: Lib, order: seq<nat>): Promised<seq<ResourceResult>>
    requires forall k :: 0 <= k < |order| ==> order[k] < |resources|
    decreases |order|
  {
    if order == [] then Resolved([])
    else
      var resource := resources[order[0]];
      match fetcher(FetchKey(lib, resource))
      case Rejected(e) => Rejected(e)
      case Resolved(v) =>
        match FetchInOrder(resources, fetcher, lib, order[1..])
        case Rejected(e) => Rejected(e)
        case Resolved(rest) => Resolved([ResourceResult(resource, v)] + rest)
  }

  /** All or nothing: the fetch step rejects exactly when some fetch rejects,
      and then with the reason of the first rejection to settle. */
  lemma {:induction false} FetchRejectsIff(resources: seq<string>, fetcher: string -> Promised<string>, lib: Lib, order: seq<nat>)
    requires forall k :: 0 <= k < |order| ==> order[k] < |resources|
    ensures FetchInOrder(resources, fetcher, lib, order).Rejected? <==>
      exists k :: 0 <= k < |order| && Settled(resources, fetcher, lib, order, k).Rejected?
    ensures FetchInOrder(resources, fetcher, lib, order).Rejected? ==>
      exists k :: 0 <= k < |order|
        && Settled(resources, fetcher, lib, order, k) == Rejected(FetchInOrder(resources, fetcher, lib, order).reason)
        && forall l :: 0 <= l < k ==> Settled(resources, fetcher, lib, order, l).Resolved?
    decreases |order|
  {
    if order != [] {
      var tail := order[1..];
      FetchRejectsIff(resources, fetcher, lib, tail);
      forall k | 0 <= k < |tail|
        ensures Settled(resources, fetcher, lib, tail, k) == Settled(resources, fetcher, lib, order, k + 1)
      {
      }
      var r := FetchInOrder(resources, fetcher, lib, order);
      if Settled(resources, fetcher, lib, order, 0).Resolved? && r.Rejected? {
        var k :| 0 <= k < |tail|
          && Settled(resources, fetcher, lib, tail, k) == Rejected(r.reason)
          && forall l :: 0 <= l < k ==> Settled(resources, fetcher, lib, tail, l).Resolved?;
        assert Settled(resources, fetcher, lib, order, k + 1) == Rejected(r.reason);
        forall l | 0 <= l < k + 1
          ensures Settled(resources, fetcher, lib, order, l).Resolved?
        {
          if l > 0 {
            assert Settled(resources, fetcher, lib, tail, l - 1).Resolved?;
          }
        }
      }
      if r.Resolved? {
        forall k | 0 <= k < |order|
          ensures Settled(resources, fetcher, lib, order, k).Resolved?
        {
          if k > 0 {
            assert Settled(resources, fetcher, lib, tail, k - 1).Resolved?;
          }
        }
      }
    }
  }

  /** On success there is one result per settled fetch, in completion order:
      the raw reference with the value fetched for its normalised key. */
  lemma {:induction false} FetchResults(resources: seq<string>, fetcher: string -> Promised<string>, lib: Lib, order: seq<nat>)
    requires forall k :: 0 <= k < |order| ==> order[k] < |resources|
    requires FetchInOrder(resources, fetcher, lib, order).Resolved?
    ensures |FetchInOrder(resources, fetcher, lib, order).value| == |order|
    ensures forall k :: 0 <= k < |order| ==>
      && FetchInOrder(resources, fetcher, lib, order).value[k].reference == resources[order[k]]
      && Settled(resources, fetcher, lib, order, k) == Resolved(FetchInOrder(resources, fetcher, lib, order).value[k].fetched)
    decreases |order|
  {
    if order != [] {
      var tail := order[1..];
      FetchResults(resources, fetcher, lib, tail);
      forall k | 0 <= k < |tail|
        ensures Settled(resources, fetcher, lib, tail, k) == Settled(resources, fetcher, lib, order, k + 1)
      {
      }
    }
  }

  /** With every resource fetched once, the fetch step rejects exactly when
      the fetch of some resource rejects. */
  lemma FetchRejectsIffSomeRejects(resources: seq<string>, fetcher: string -> Promised<string>, lib: Lib, order: seq<nat>)
    requires IsCompletionOrder(order, |resources|)
    ensures FetchInOrder(resources, fetcher, lib, order).Rejected? <==>
      exists u :: u in resources && fetcher(FetchKey(lib, u)).Rejected?
  {
    FetchRejectsIff(resources, fetcher, lib, order);
    if exists u :: u in resources && fetcher(FetchKey(lib, u)).Rejected? {
      var u :| u in resources && fetcher(FetchKey(lib, u)).Rejected?;
      var i :| 0 <= i < |resources| && resources[i] == u;
      assert i in order;
      var k :| 0 <= k < |order| && order[k] == i;
      assert Settled(resources, fetcher, lib, order, k).Rejected?;
    }
    if FetchInOrder(resources, fetcher, lib, order).Rejected? {
      var k :| 0 <= k < |order| && Settled(resources, fetcher, lib, order, k).Rejected?;
      assert resources[order[k]] in resources;
    }
  }

  /** For a completion order of all the references, every reference gets
      exactly one result, and distinct references give distinct results. */
  lemma OneResultPerResource(resources: seq<string>, fetcher: string -> Promised<string>, lib: Lib, order: seq<nat>)
    requires IsCompletionOrder(order, |resources|)
    requires FetchInOrder(resources, fetcher, lib, order).Resolved?
    ensures |FetchInOrder(resources, fetcher, lib, order).value| == |resources|
    ensures forall i :: 0 <= i < |resources| ==>
      exists k :: 0 <= k < |resources|
        && FetchInOrder(resources, fetcher, lib, order).value[k].reference == resources[i]
        && fetcher(FetchKey(lib, resources[i])) == Resolved(FetchInOrder(resources, fetcher, lib, order).value[k].fetched)
    ensures forall k :: 0 <= k < |resources| ==>
      FetchInOrder(resources, fetcher, lib, order).value[k].reference in resources
    ensures NoDuplicates(resources) ==> NoDuplicates(FetchInOrder(resources, fetcher, lib, order).value)
  {
    FetchResults(resources, fetcher, lib, order);
    var results := FetchInOrder(resources, fetcher, lib, order).value;
    forall i | 0 <= i < |resources|
      ensures exists k ::
                0 <= k < |resources|
                && results[k].reference == resources[i]
                && fetcher(FetchKey(lib, resources[i])) == Resolved(results[k].fetched)
    {
      assert i in order;
      var k :| 0 <= k < |order| && order[k] == i;
      assert Settled(resources, fetcher, lib, order, k) == Resolved(results[k].fetched);
    }
    if NoDuplicates(resources) {
      forall k, l | 0 <= k < l < |results|
        ensures results[k] != results[l]
      {
        assert results[k].reference == resources[order[k]];
        assert results[l].reference == resources[order[l]];
      }
    }
  }

  /** `useFetcher`: every pushed result in the order the fetches settle. */
  method UseFetcher(resources: seq<string>, fetcher: string -> Promised<string>, lib: Lib, order: seq<nat>)
    returns (r: Promised<seq<ResourceResult>>)
    requires IsCompletionOrder(order, |resources|)
    ensures r == FetchInOrder(resources, fetcher, lib, order)
  {
    var results: seq<ResourceResult> := [];
    var k := 0;
    assert order[0..] == order;
    assert Prepend([], FetchInOrder(resources, fetcher, lib, order)) == FetchInOrder(resources, fetcher, lib, order) by {
      var whole := FetchInOrder(resources, fetcher, lib, order);
      if whole.Resolved? {
        assert [] + whole.value == whole.value;
      }
    }
    while k < |order|
      invariant 0 <= k <= |order|
      invariant FetchInOrder(resources, fetcher, lib, order)
        == Prepend(results, FetchInOrder(resources, fetcher, lib, order[k..]))
    {
      assert order[k..][1..] == order[k + 1..];
      var resource := resources[order[k]];
      var result := fetcher(FetchKey(lib, resource));
      if result.Rejected? {
        return Rejected(result.reason);
      }
      var rest := FetchInOrder(resources, fetcher, lib, order[k + 1..]);
      if rest.Resolved? {
        assert results + ([ResourceResult(resource, result.value)] + rest.value)
          == (results + [ResourceResult(resource, result.value)]) + rest.value;
      }
      results := results + [ResourceResult(resource, result.value)];
      k := k + 1;
    }
    assert order[k..] == [];
    assert results + [] == results;
    r := Resolved(results);
  }

  /** The results obtained so far in front of the remaining outcome. */
  function Prepend(done: seq<ResourceResult>, rest: Promised<seq<ResourceResult>>): Promised<seq<ResourceResult>> {
    match rest
    case Rejected(e) => Rejected(e)
    case Resolved(more) => Resolved(done + more)
  }

  /** The content after `content = content.replaceAll(url, base64)` for each
      result in turn. */
  function Substituted(content: string, results: seq<ResourceResult>): string
    decreases |results|
  {
    if results == [] then content
    else Substituted(ReplaceAll(content, results[0].reference, results[0].fetched), results[1..])
  }

  /** The substitution loop over `base64Resources`. */
  method SubstituteAll(content: string, results: seq<ResourceResult>) returns (c: string)
    ensures c == Substituted(content, results)
  {
    c := content;
    for i := 0 to |results|
      invariant Substituted(content, results) == Substituted(c, results[i..])
    {
      assert results[i..][1..] == results[i + 1..];
      c := ReplaceAll(c, results[i].reference, results[i].fetched);
    }
  }

  /** A fetched value that can be inserted without side effects: not empty,
      free of replacement patterns, and separated from every reference of
      `refs` (neither contains the other and they do not overlap). */
  predicate Insertable(value: string, refs: seq<string>) {
    value != [] && '$' !in value && forall k :: 0 <= k < |refs| ==> Separated(refs[k], value)
  }

  /** A typical fetched value: a base64 data URI. */
  const SampleDataUri: string := "data:image/png;base64,iVBORw0KGgo="

  lemma SampleDataUriHasNoDollar()
    ensures '$' !in SampleDataUri
  {
  }

  lemma SampleDataUriHasNoDot()
    ensures '.' !in SampleDataUri
  {
  }

  /** A base64 data URI is insertable for an ordinary image reference. */
  lemma DataUriInsertable()
    ensures Insertable(SampleDataUri, ["a.png"])
  {
    SampleDataUriHasNoDollar();
    SampleDataUriHasNoDot();
    assert SampleDataUri[0] == 'd' && SampleDataUri[|SampleDataUri| - 1] == '=';
    var u := "a.png";
    assert u[1] == '.' && 'd' !in u && '=' !in u;
    SeparatedWhen(u, SampleDataUri, 1);
  }

  function References(results: seq<ResourceResult>): (refs: seq<string>)
    ensures |refs| == |results|
    ensures forall k :: 0 <= k < |results| ==> refs[k] == results[k].reference
  {
    if results == [] then [] else [results[0].reference] + References(results[1..])
  }

  /** Once every result has been substituted, no reference of `absent` or of
      `results` is left in the content, provided no reference is empty,
      the content already lacks those of `absent`, and every fetched value
      is insertable with respect to all of them. */
  lemma {:induction false} SubstitutedAvoids(content: string, results: seq<ResourceResult>, absent: seq<string>)
    requires forall k :: 0 <= k < |results| ==> results[k].reference != []
    requires forall k :: 0 <= k < |absent| ==> absent[k] != [] && !Contains(content, absent[k])
    requires forall k :: 0 <= k < |results| ==> Insertable(results[k].fetched, absent + References(results))
    ensures forall k :: 0 <= k < |absent| ==> !Contains(Substituted(content, results), absent[k])
    ensures forall k :: 0 <= k < |results| ==> !Contains(Substituted(content, results), results[k].reference)
    decreases |results|
  {
    if results != [] {
      var first, rest := results[0], results[1..];
      var next := ReplaceAll(content, first.reference, first.fetched);
      var refs := absent + References(results);
      var absent' := absent + [first.reference];
      assert References(results) == [first.reference] + References(rest);
      assert absent' + References(rest) == refs;
      forall k | 0 <= k < |absent'|
        ensures absent'[k] != [] && !Contains(next, absent'[k])
      {
        if k < |absent| {
          assert refs[k] == absent[k];
          ReplaceAllKeepsAbsent(content, first.reference, first.fetched, absent[k]);
        } else {
          assert refs[|absent|] == first.reference;
          ReplaceAllRemoves(content, first.reference, first.fetched);
        }
      }
      forall k | 0 <= k < |rest|
        ensures Insertable(rest[k].fetched, absent' + References(rest))
      {
        assert rest[k] == results[k + 1];
      }
      SubstitutedAvoids(next, rest, absent');
      forall k | 0 <= k < |absent|
        ensures !Contains(Substituted(content, results), absent[k])
      {
        assert absent'[k] == absent[k];
      }
      forall k | 0 <= k < |results|
        ensures !Contains(Substituted(content, results), results[k].reference)
      {
        if k == 0 {
          assert absent'[|absent|] == first.reference;
        } else {
          assert results[k] == rest[k - 1];
        }
      }
    }
  }

  /** Every reference substituted is gone from the final content when the
      references are non-empty and every fetched value is insertable. */
  lemma SubstitutedRemovesReferences(content: string, results: seq<ResourceResult>)
    requires forall k :: 0 <= k < |results| ==> results[k].reference != []
    requires forall k :: 0 <= k < |results| ==> Insertable(results[k].fetched, References(results))
    ensures forall k :: 0 <= k < |results| ==> !Contains(Substituted(content, results), results[k].reference)
  {
    assert [] + References(results) == References(results);
    SubstitutedAvoids(content, results, []);
  }

  /** The substitution key is the raw reference, while deduplication also
      works on raw references, so two spellings of one resource are both
      fetched under the same key: `a.png` and `'a.png'` here. */
  lemma RawDedupFetchesKeyTwice()
    ensures var lib := Lib(_ => ["a.png", "'a.png'"], _ => [], s => s,
              s => if |s| >= 2 && s[0] == '\'' && s[|s| - 1] == '\'' then s[1..|s| - 1] else s);
            var selected := SelectedResources(lib, "", None);
            && selected == ["a.png", "'a.png'"]
            && FetchKey(lib, selected[0]) == FetchKey(lib, selected[1]) == "a.png"
  {
    var xs := ["a.png", "'a.png'"];
    assert xs[..1] == ["a.png"] && xs[..1][..0] == [];
    assert "a.png" != "'a.png'";
    assert ["a.png", "'a.png'"] + [] == xs;
    assert "'a.png'"[1..6] == "a.png";
  }

  /** A source of completion orders: for any number of fetches, an order in
      which each of them settles once. */
  ghost predicate IsScheduler(settle: nat -> seq<nat>) {
    forall n: nat :: IsCompletionOrder(settle(n), n)
  }

  /** The `if (options.fetcher)` block: select the references, fetch them,
      and substitute the results into the content. */
  function InlineResources(content: string, lib: Lib, fetcher: Option<string -> Promised<string>>,
                           filterer: Option<string -> bool>, settle: nat -> seq<nat>): Promised<string>
    requires IsScheduler(settle)
  {
    match fetcher
    case None => Resolved(content)
    case Some(fetch) =>
      var selected := SelectedResources(lib, content, filterer);
      match FetchInOrder(selected, fetch, lib, settle(|selected|))
      case Rejected(e) => Rejected(e)
      case Resolved(results) => Resolved(Substituted(content, results))
  }

  /** Inlining fails exactly when the fetch of some selected reference rejects. */
  lemma InlineRejectsIff(content: string, lib: Lib, fetcher: Option<string -> Promised<string>>,
                         filterer: Option<string -> bool>, settle: nat -> seq<nat>)
    requires IsScheduler(settle)
    ensures InlineResources(content, lib, fetcher, filterer, settle).Rejected? <==>
      fetcher.Some? && exists u :: u in SelectedResources(lib, content, filterer)
                                   && fetcher.value(FetchKey(lib, u)).Rejected?
  {
    if fetcher.Some? {
      var selected := SelectedResources(lib, content, filterer);
      assert IsCompletionOrder(settle(|selected|), |selected|);
      FetchRejectsIffSomeRejects(selected, fetcher.value, lib, settle(|selected|));
    }
  }

  /** A reference gets a result exactly when it was extracted and the
      filterer keeps it; a reference the filterer excludes is neither fetched
      nor substituted. */
  lemma ResultsExactlyForSelection(content: string, lib: Lib, fetch: string -> Promised<string>,
                                   filterer: Option<string -> bool>, settle: nat -> seq<nat>, u: string)
    requires IsScheduler(settle)
    requires var selected := SelectedResources(lib, content, filterer);
      FetchInOrder(selected, fetch, lib, settle(|selected|)).Resolved?
    ensures var selected := SelectedResources(lib, content, filterer);
      var results := FetchInOrder(selected, fetch, lib, settle(|selected|)).value;
      (exists k :: 0 <= k < |results| && results[k].reference == u) <==>
        u in ExtractedResources(lib, content) && (filterer.None? || filterer.value(u))
  {
    var selected := SelectedResources(lib, content, filterer);
    var order := settle(|selected|);
    assert IsCompletionOrder(order, |selected|);
    SelectedResourcesSpec(lib, content, filterer);
    OneResultPerResource(selected, fetch, lib, order);
    var results := FetchInOrder(selected, fetch, lib, order).value;
    if u in selected {
      var i :| 0 <= i < |selected| && selected[i] == u;
      assert exists k :: 0 <= k < |selected| && results[k].reference == selected[i];
    }
  }

  /** The conditions on the selected references carry over to the results. */
  lemma ResultsInsertable(selected: seq<string>, fetch: string -> Promised<string>, lib: Lib, order: seq<nat>)
    requires IsCompletionOrder(order, |selected|)
    requires forall i :: 0 <= i < |selected| ==>
      && selected[i] != []
      && (fetch(FetchKey(lib, selected[i])).Resolved? ==>
            Insertable(fetch(FetchKey(lib, selected[i])).value, selected))
    requires FetchInOrder(selected, fetch, lib, order).Resolved?
    ensures var results := FetchInOrder(selected, fetch, lib, order).value;
      forall k :: 0 <= k < |results| ==>
        results[k].reference != [] && Insertable(results[k].fetched, References(results))
  {
    FetchResults(selected, fetch, lib, order);
    var results := FetchInOrder(selected, fetch, lib, order).value;
    var refs := References(results);
    forall k | 0 <= k < |results|
      ensures results[k].reference != [] && Insertable(results[k].fetched, refs)
    {
      assert results[k].reference == selected[order[k]];
      assert Settled(selected, fetch, lib, order, k) == Resolved(results[k].fetched);
      forall j | 0 <= j < |refs|
        ensures Separated(refs[j], results[k].fetched)
      {
        assert refs[j] == selected[order[j]];
      }
    }
  }

  /** Substitution removes every reference that some result carries. */
  lemma SubstitutedRemovesCovered(content: string, refs: seq<string>, results: seq<ResourceResult>)
    requires forall k :: 0 <= k < |results| ==> results[k].reference != []
    requires forall k :: 0 <= k < |results| ==> Insertable(results[k].fetched, References(results))
    requires forall i :: 0 <= i < |refs| ==>
      exists k :: 0 <= k < |results| && results[k].reference == refs[i]
    ensures forall u :: u in refs ==> !Contains(Substituted(content, results), u)
  {
    SubstitutedRemovesReferences(content, results);
    forall u | u in refs
      ensures !Contains(Substituted(content, results), u)
    {
      var i :| 0 <= i < |refs| && refs[i] == u;
      var k :| 0 <= k < |results| && results[k].reference == refs[i];
    }
  }

  /** After inlining, none of the selected references is left in the
      content, provided none is empty and every value fetched for them is
      insertable with respect to all of them. */
  lemma InlineRemovesReferences(content: string, lib: Lib, fetch: string -> Promised<string>,
                                filterer: Option<string -> bool>, settle: nat -> seq<nat>)
    requires IsScheduler(settle)
    requires var selected := SelectedResources(lib, content, filterer);
      forall i :: 0 <= i < |selected| ==>
        && selected[i] != []
        && (fetch(FetchKey(lib, selected[i])).Resolved? ==>
              Insertable(fetch(FetchKey(lib, selected[i])).value, selected))
    requires InlineResources(content, lib, Some(fetch), filterer, settle).Resolved?
    ensures var selected := SelectedResources(lib, content, filterer);
      forall u :: u in selected ==> !Contains(InlineResources(content, lib, Some(fetch), filterer, settle).value, u)
  {
    var selected := SelectedResources(lib, content, filterer);
    var order := settle(|selected|);
    assert IsCompletionOrder(order, |selected|);
    OneResultPerResource(selected, fetch, lib, order);
    ResultsInsertable(selected, fetch, lib, order);
    SubstitutedRemovesCovered(content, selected, FetchInOrder(selected, fetch, lib, order).value);
  }
}
