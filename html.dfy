/**
 * The document side of the providers, reduced to plain data: an element is
 * its attribute map, a page is the elements `loadLinks` selects from it, and
 * a call to `loadExtractor` is a `Dispatch` appended to the output.
 */
module Html {
  import opened Wrappers
  import opened Text

  /** An element's attributes. */
  type Element = map<string, string>

  /** jsoup `attr(key)`: the value, or "" when the attribute is absent. */
  function Attr(e: Element, key: string): string {
    if key in e then e[key] else ""
  }

  /**
   * What `loadLinks` reads from a content page:
   * `embed` is the player iframe, if any (each provider selects it with its
   * own query: Gojodesu takes the first `div.player-embed iframe, iframe`,
   * Anoboy the first `div.player-embed iframe`); `mirrorValues` are the `value`
   * attributes of the enabled `select.mirror` options, in document order;
   * `downloadHrefs` are the `href`s of the download anchors, in document order.
   */
  datatype Page = Page(embed: Option<Element>, mirrorValues: seq<string>, downloadHrefs: seq<string>)

  /** One `loadExtractor(url, referer, ...)` call. */
  datatype Dispatch = Dispatch(url: string, referer: string)

  /** The first index at or after `from` whose attribute is not blank. */
  function FirstNonBlankFrom(e: Element, keys: seq<string>, from: nat): (r: Option<nat>)
    requires from <= |keys|
    ensures r.Some? ==> from <= r.value < |keys| && !IsBlank(Attr(e, keys[r.value]))
    ensures r.Some? ==> forall j :: from <= j < r.value ==> IsBlank(Attr(e, keys[j]))
    ensures r.None? ==> forall j :: from <= j < |keys| ==> IsBlank(Attr(e, keys[j]))
    decreases |keys| - from
  {
    if from == |keys| then None
    else if !IsBlank(Attr(e, keys[from])) then Some(from)
    else FirstNonBlankFrom(e, keys, from + 1)
  }

  /**
   * `keys.firstNotNullOfOrNull { e.attr(it).takeIf { it.isNotBlank() } }`:
   * the value of the first attribute in `keys` that is not blank.
   */
  function FirstNonBlank(e: Element, keys: seq<string>): (r: Option<string>)
    ensures r.None? <==> forall j :: 0 <= j < |keys| ==> IsBlank(Attr(e, keys[j]))
    ensures r.Some? ==> exists k :: 0 <= k < |keys| && r.value == Attr(e, keys[k]) && !IsBlank(r.value)
                                   && forall j :: 0 <= j < k ==> IsBlank(Attr(e, keys[j]))
  {
    match FirstNonBlankFrom(e, keys, 0)
    case Some(k) => Some(Attr(e, keys[k]))
    case None => None
  }

  // ---------------------------------------------------------------------
  // A loop that dispatches for each item in turn

  /**
   * The dispatches of a loop that runs `step` on each of `items` in order and
   * appends what each run dispatches.
   */
  function Each(items: seq<string>, step: string -> seq<Dispatch>): seq<Dispatch>
  {
    if items == [] then []
    else Each(items[..|items| - 1], step) + step(items[|items| - 1])
  }

  lemma ConcatAssoc(a: seq<Dispatch>, b: seq<Dispatch>, c: seq<Dispatch>)
    ensures (a + b) + c == a + (b + c)
  {
  }

  /** Items are independent: the loop over `a + b` is the loop over `a`, then over `b`. */
  lemma {:induction false} EachAppend(a: seq<string>, b: seq<string>, step: string -> seq<Dispatch>)
    ensures Each(a + b, step) == Each(a, step) + Each(b, step)
  {
    if b == [] {
      assert a + b == a;
    } else {
      var n := |b| - 1;
      var ab := a + b;
      assert ab[..|ab| - 1] == a + b[..n];
      assert ab[|ab| - 1] == b[n];
      EachAppend(a, b[..n], step);
      ConcatAssoc(Each(a, step), Each(b[..n], step), step(b[n]));
    }
  }

  /** One more item adds exactly what its own step dispatches. */
  lemma EachSnoc(a: seq<string>, m: string, step: string -> seq<Dispatch>)
    ensures Each(a + [m], step) == Each(a, step) + step(m)
  {
    assert (a + [m])[..|a|] == a;
  }

  /** The loop over one prefix more: the step of the next item is appended. */
  lemma EachPrefix(items: seq<string>, i: nat, step: string -> seq<Dispatch>)
    requires i < |items|
    ensures Each(items[..i + 1], step) == Each(items[..i], step) + step(items[i])
  {
    assert items[..i + 1][..i] == items[..i];
  }

  /**
   * An item whose step dispatches nothing (it fails or is filtered out)
   * leaves the dispatches of the items around it as they are.
   */
  lemma SkippedItem(a: seq<string>, m: string, b: seq<string>, step: string -> seq<Dispatch>)
    requires step(m) == []
    ensures Each(a + [m] + b, step) == Each(a, step) + Each(b, step)
  {
    EachSnoc(a, m, step);
    EachAppend(a + [m], b, step);
  }

  /** When every item dispatches at most once, the loop dispatches at most once per item. */
  lemma {:induction false} EachLength(items: seq<string>, step: string -> seq<Dispatch>)
    requires forall k :: 0 <= k < |items| ==> |step(items[k])| <= 1
    ensures |Each(items, step)| <= |items|
  {
    if items != [] {
      var n := |items| - 1;
      assert forall k :: 0 <= k < n ==> items[..n][k] == items[k];
      EachLength(items[..n], step);
    }
  }

  /** Every dispatch in `ds` names `referer`. */
  ghost predicate AllReferTo(ds: seq<Dispatch>, referer: string) {
    forall k :: 0 <= k < |ds| ==> ds[k].referer == referer
  }

  /** When every step names `referer`, so does the whole loop. */
  lemma {:induction false} EachRefersTo(items: seq<string>, step: string -> seq<Dispatch>, referer: string)
    requires forall k :: 0 <= k < |items| ==> AllReferTo(step(items[k]), referer)
    ensures AllReferTo(Each(items, step), referer)
  {
    if items != [] {
      var n := |items| - 1;
      assert forall k :: 0 <= k < n ==> items[..n][k] == items[k];
      EachRefersTo(items[..n], step, referer);
      var a, b := Each(items[..n], step), step(items[n]);
      assert forall k :: 0 <= k < |a| ==> (a + b)[k] == a[k];
      assert forall k :: |a| <= k < |a + b| ==> (a + b)[k] == b[k - |a|];
    }
  }
}
