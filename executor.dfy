/**
 * The decisions taken by the form-filling executor of the listing-creation
 * form: value mappings, the switch check, the photo download / batch upload
 * pipeline and the footer readiness check.
 *
 * The browser page is an abstract value: a `Dom` maps a selector string to the
 * elements it currently matches, in document order. What the executor does to
 * the page is returned as a sequence of `Action`s instead of being performed.
 */
module Executor {
  import opened Wrappers
  import opened Text

  // ---------------------------------------------------------------------------
  // Value mappings
  // ---------------------------------------------------------------------------

  /** Form codes of the property types the executor knows. */
  const PropertyTypeCodes: map<string, string> :=
    map["Apartamento" := "APARTMENT", "Casa" := "HOME",
        "Terreno" := "ALLOTMENT_LAND", "Comercial" := "BUILDING"]

  /** The form code for a property type; unknown types are sent as apartments. */
  function MapPropertyType(tipo: string): (code: string)
    ensures code in PropertyTypeCodes.Values
    ensures tipo in PropertyTypeCodes ==> code == PropertyTypeCodes[tipo]
    ensures tipo !in PropertyTypeCodes ==> code == PropertyTypeCodes["Apartamento"]
  {
    if tipo in PropertyTypeCodes then PropertyTypeCodes[tipo]
    else assert PropertyTypeCodes["Apartamento"] == "APARTMENT"; "APARTMENT"
  }

  /** Distinct known property types get distinct form codes. */
  lemma PropertyTypeCodesInjective(a: string, b: string)
    requires a in PropertyTypeCodes && b in PropertyTypeCodes && a != b
    ensures MapPropertyType(a) != MapPropertyType(b)
  {
  }

  /**
   * The billing period of the property tax. A missing or empty period is
   * yearly; a period mentioning "Mensal" is monthly even if it also mentions
   * "Anual"; anything else is yearly.
   */
  function MapIptuPeriod(periodo: Option<string>): (period: string)
    ensures period == "MONTHLY" || period == "YEARLY"
    ensures period == "MONTHLY" <==> periodo.Some? && Contains(periodo.value, "Mensal")
  {
    if periodo.None? || periodo.value == "" then "YEARLY"
    else if Contains(periodo.value, "Mensal") then "MONTHLY"
    else if Contains(periodo.value, "Anual") then "YEARLY"
    else "YEARLY"
  }

  // ---------------------------------------------------------------------------
  // The abstract page
  // ---------------------------------------------------------------------------

  /**
   * One element of the page. `checked` is `None` when asking whether it is
   * checked raises (it is not a checkbox or radio input); `classes` is its
   * class attribute ("" when absent); `interactive` is false when clicking it
   * or assigning files to it raises.
   */
  datatype Element = Element(visible: bool, checked: Option<bool>, classes: string, interactive: bool)

  type Dom = map<string, seq<Element>>

  /** The elements a selector matches; a selector absent from the map matches nothing. */
  function Matches(dom: Dom, selector: string): seq<Element>
  {
    if selector in dom then dom[selector] else []
  }

  /** A temporary photo file: the 1-based position of its URL and its extension. */
  datatype TempFile = TempFile(photo: nat, ext: string)

  /** What the executor does to the page: the element is the `index`-th match of `selector`. */
  datatype Action =
    | Click(selector: string, index: nat)
    | SetInputFiles(selector: string, index: nat, files: seq<TempFile>)

  // ---------------------------------------------------------------------------
  // Switch check
  // ---------------------------------------------------------------------------

  /** The first selector of the list that matches at least one element. */
  function FirstMatch(dom: Dom, selectors: seq<string>): (k: Option<nat>)
    ensures k.Some? ==> k.value < |selectors| && |Matches(dom, selectors[k.value])| > 0
    ensures k.Some? ==> forall j :: 0 <= j < k.value ==> |Matches(dom, selectors[j])| == 0
    ensures k.None? <==> forall j :: 0 <= j < |selectors| ==> |Matches(dom, selectors[j])| == 0
  {
    if |selectors| == 0 then None
    else if |Matches(dom, selectors[0])| > 0 then Some(0)
    else match FirstMatch(dom, selectors[1..])
      case None => None
      case Some(k) => Some(k + 1)
  }

  /**
   * A switch already reads as active when it is checked, or when its lower-cased
   * class attribute contains "active", "selected" or "checked" as a substring.
   */
  predicate LooksActive(e: Element)
  {
    var classes := Lower(e.classes);
    e.checked == Some(true)
    || Contains(classes, "active") || Contains(classes, "selected") || Contains(classes, "checked")
  }

  /**
   * The click the switch check performs, if any: on the first element of the
   * first matching selector, when that element becomes visible, does not look
   * active and accepts the click.
   */
  function SwitchClick(dom: Dom, selectors: seq<string>): (c: Option<Action>)
    ensures c.Some? ==> exists k :: 0 <= k < |selectors| && c.value == Click(selectors[k], 0)
  {
    match FirstMatch(dom, selectors)
    case None => None
    case Some(k) =>
      var e := Matches(dom, selectors[k])[0];
      if e.visible && !LooksActive(e) && e.interactive then Some(Click(selectors[k], 0)) else None
  }

  /**
   * Makes sure a switch is on without toggling it off: resolves the first
   * matching selector, inspects its first element and clicks it at most once,
   * only when it does not already look active. Every outcome, including a
   * missing switch, counts as success.
   */
  method VerifySwitchState(dom: Dom, selectors: seq<string>) returns (ok: bool, clicks: seq<Action>)
    ensures ok
    ensures |clicks| <= 1
    ensures FirstMatch(dom, selectors).None? ==> clicks == []
    ensures forall k :: FirstMatch(dom, selectors) == Some(k) ==>
      var e := Matches(dom, selectors[k])[0];
      (clicks != [] <==> e.visible && !LooksActive(e) && e.interactive)
      && (clicks != [] ==> clicks == [Click(selectors[k], 0)])
    ensures clicks == if SwitchClick(dom, selectors).Some? then [SwitchClick(dom, selectors).value] else []
  {
    clicks := [];
    var found: Option<nat> := None;
    var i := 0;
    while i < |selectors|
      invariant 0 <= i <= |selectors|
      invariant forall j :: 0 <= j < i ==> |Matches(dom, selectors[j])| == 0
      invariant found.None?
    {
      if |Matches(dom, selectors[i])| > 0 {
        found := Some(i);
        break;
      }
      i := i + 1;
    }
    if found.None? {
      return true, [];
    }
    var k := found.value;
    assert FirstMatch(dom, selectors) == Some(k);
    var element := Matches(dom, selectors[k])[0];
    if !element.visible {
      // waiting for visibility times out: assume the switch is already right
      return true, [];
    }
    var selected := false;
    if element.checked == Some(true) {
      selected := true;
    }
    if !selected {
      var classes := Lower(element.classes);
      if Contains(classes, "active") || Contains(classes, "selected") || Contains(classes, "checked") {
        selected := true;
      }
    }
    if !selected && element.interactive {
      clicks := [Click(selectors[k], 0)];
    }
    ok := true;
  }

  /** The class test matches substrings, so an "inactive" switch reads as active. */
  lemma InactiveClassLooksActive(visible: bool, interactive: bool)
    ensures LooksActive(Element(visible, Some(false), "switch inactive", interactive))
  {
    assert Lower("switch inactive") == "switch inactive";
    ContainsAt("switch inactive", "active", 9);
  }

  /**
   * Running the switch check again after the switch it resolved has become
   * active does not click a second time: the check never toggles an active
   * switch off.
   */
  lemma SwitchCheckIdempotent(dom: Dom, selectors: seq<string>, k: nat, e: Element)
    requires FirstMatch(dom, selectors) == Some(k)
    requires LooksActive(e)
    ensures var matched := Matches(dom, selectors[k]);
      SwitchClick(dom[selectors[k] := [e] + matched[1..]], selectors).None?
  {
    var dom' := dom[selectors[k] := [e] + Matches(dom, selectors[k])[1..]];
    forall j | 0 <= j < k
      ensures |Matches(dom', selectors[j])| == 0
    {
      assert selectors[j] != selectors[k];
    }
    assert |Matches(dom', selectors[k])| > 0;
    FirstMatchIs(dom', selectors, k);
  }

  /** `FirstMatch` is characterised by its postconditions. */
  lemma {:induction false} FirstMatchIs(dom: Dom, selectors: seq<string>, k: nat)
    requires k < |selectors| && |Matches(dom, selectors[k])| > 0
    requires forall j :: 0 <= j < k ==> |Matches(dom, selectors[j])| == 0
    ensures FirstMatch(dom, selectors) == Some(k)
    decreases k
  {
    if k > 0 {
      FirstMatchIs(dom, selectors[1..], k - 1);
    }
  }

  // ---------------------------------------------------------------------------
  // Photo download
  // ---------------------------------------------------------------------------

  /** The outcome of requesting one photo URL. */
  datatype Fetch = Failed | Fetched(size: nat, contentType: string)

  /** Payloads below this many bytes are treated as placeholders and skipped. */
  const MinPhotoBytes: nat := 1000

  /**
   * The file extension for a response content type (lower-cased first):
   * JPEG for "jpeg" or "jpg", then PNG, then WEBP, and JPEG by default.
   */
  function ExtensionFor(contentType: string): (ext: string)
    ensures ext == ".jpg" || ext == ".png" || ext == ".webp"
    ensures var t := Lower(contentType);
      (ext == ".png" <==> !Contains(t, "jpeg") && !Contains(t, "jpg") && Contains(t, "png"))
      && (ext == ".webp" <==> !Contains(t, "jpeg") && !Contains(t, "jpg") && !Contains(t, "png") && Contains(t, "webp"))
  {
    var t := Lower(contentType);
    if Contains(t, "jpeg") || Contains(t, "jpg") then ".jpg"
    else if Contains(t, "png") then ".png"
    else if Contains(t, "webp") then ".webp"
    else ".jpg"
  }

  /** The extension does not depend on the case of the content type. */
  lemma ExtensionCaseInsensitive(contentType: string)
    ensures ExtensionFor(Lower(contentType)) == ExtensionFor(contentType)
  {
    LowerIdempotent(contentType);
  }

  predicate Kept(f: Fetch)
  {
    f.Fetched? && f.size >= MinPhotoBytes
  }

  /**
   * The temporary files the download phase keeps, in URL order: one per URL
   * whose request succeeded with a payload of at least `MinPhotoBytes`.
   */
  function Downloads(fetches: seq<Fetch>): (files: seq<TempFile>)
    ensures |files| <= |fetches|
    ensures forall j :: 0 <= j < |files| ==> KeptFileOf(fetches, files[j])
    ensures forall j :: 0 <= j < |files| - 1 ==> files[j].photo < files[j + 1].photo
  {
    if |fetches| == 0 then []
    else
      var i := |fetches| - 1;
      var before := Downloads(fetches[..i]);
      assert forall f :: KeptFileOf(fetches[..i], f) ==> KeptFileOf(fetches, f) && f.photo <= i;
      if Kept(fetches[i]) then before + [TempFile(i + 1, ExtensionFor(fetches[i].contentType))]
      else before
  }

  /** `f` is the file kept for a usable response among `fetches`. */
  predicate KeptFileOf(fetches: seq<Fetch>, f: TempFile)
  {
    1 <= f.photo <= |fetches| && Kept(fetches[f.photo - 1])
    && f.ext == ExtensionFor(fetches[f.photo - 1].contentType)
  }

  /** Every usable payload is kept: the download phase drops only failed or undersized responses. */
  lemma {:induction false} DownloadsComplete(fetches: seq<Fetch>, i: nat)
    requires i < |fetches| && Kept(fetches[i])
    ensures TempFile(i + 1, ExtensionFor(fetches[i].contentType)) in Downloads(fetches)
    decreases |fetches|
  {
    var last := |fetches| - 1;
    if i < last {
      assert fetches[..last][i] == fetches[i];
      DownloadsComplete(fetches[..last], i);
    }
  }

  /** The kept files are in strictly increasing URL order. */
  lemma DownloadsOrdered(fetches: seq<Fetch>, j: nat, l: nat)
    requires j < l < |Downloads(fetches)|
    ensures Downloads(fetches)[j].photo < Downloads(fetches)[l].photo
    decreases l - j
  {
    if j + 1 < l {
      DownloadsOrdered(fetches, j + 1, l);
    }
  }

  /** The download phase: requests every URL in order and keeps the usable payloads. */
  method DownloadPhotos(fetches: seq<Fetch>) returns (files: seq<TempFile>)
    ensures files == Downloads(fetches)
  {
    files := [];
    var i := 0;
    while i < |fetches|
      invariant 0 <= i <= |fetches|
      invariant files == Downloads(fetches[..i])
    {
      assert fetches[..i + 1][..i] == fetches[..i];
      if fetches[i].Fetched? && fetches[i].size >= MinPhotoBytes {
        files := files + [TempFile(i + 1, ExtensionFor(fetches[i].contentType))];
      }
      i := i + 1;
    }
    assert fetches[..i] == fetches;
  }

  // ---------------------------------------------------------------------------
  // Batches
  // ---------------------------------------------------------------------------

  /** Number of files offered to the file input at once. */
  const BatchSize: nat := 8

  /**
   * Consecutive slices of `xs` of `BatchSize` elements; only the last one may
   * be shorter, none is empty, and there are ceil(|xs| / 8) of them.
   */
  function Batches<T>(xs: seq<T>): (r: seq<seq<T>>)
    ensures |r| == (|xs| + BatchSize - 1) / BatchSize
    ensures forall k :: 0 <= k < |r| ==> 0 < |r[k]| <= BatchSize
    ensures forall k :: 0 <= k < |r| - 1 ==> |r[k]| == BatchSize
    decreases |xs|
  {
    if |xs| == 0 then []
    else if |xs| <= BatchSize then [xs]
    else [xs[..BatchSize]] + Batches(xs[BatchSize..])
  }

  function Flatten<T>(xss: seq<seq<T>>): seq<T>
  {
    if |xss| == 0 then [] else xss[0] + Flatten(xss[1..])
  }

  /** Batching loses, adds and reorders nothing. */
  lemma {:induction false} FlattenBatches<T>(xs: seq<T>)
    ensures Flatten(Batches(xs)) == xs
    decreases |xs|
  {
    if |xs| > BatchSize {
      FlattenBatches(xs[BatchSize..]);
      var r := Batches(xs);
      assert r[1..] == Batches(xs[BatchSize..]);
      assert xs == xs[..BatchSize] + xs[BatchSize..];
    } else if |xs| > 0 {
      assert Flatten([xs]) == xs + Flatten<T>([]);
    }
  }

  lemma {:induction false} FlattenAppend<T>(xss: seq<seq<T>>, ys: seq<T>)
    ensures Flatten(xss + [ys]) == Flatten(xss) + ys
    decreases |xss|
  {
    if |xss| == 0 {
      assert Flatten([ys]) == ys + Flatten<T>([]);
    } else {
      assert (xss + [ys])[1..] == xss[1..] + [ys];
      FlattenAppend(xss[1..], ys);
    }
  }

  lemma {:induction false} FlattenSplit<T>(xss: seq<seq<T>>, n: nat)
    requires n <= |xss|
    ensures Flatten(xss) == Flatten(xss[..n]) + Flatten(xss[n..])
    decreases n
  {
    if n > 0 {
      FlattenSplit(xss[1..], n - 1);
      assert xss[1..][..n - 1] == xss[..n][1..];
      assert xss[1..][n - 1..] == xss[n..];
    } else {
      assert xss[..0] == [];
      assert xss[0..] == xss;
    }
  }

  // ---------------------------------------------------------------------------
  // Batch upload
  // ---------------------------------------------------------------------------

  /** File-input selectors, most specific first. */
  const FileInputSelectors: seq<string> := [
    "input[type=\"file\"][name=\"images\"]",
    "input[data-cy=\"zap-file-input\"]",
    "input.zap-file-input__input",
    "input[type=\"file\"][multiple]",
    "input[type=\"file\"]"
  ]

  /**
   * A selector yields an input when it matches at least one element and the
   * last (most recently mounted) one accepts files; otherwise the next
   * selector is tried.
   */
  predicate YieldsInput(dom: Dom, selector: string)
  {
    var m := Matches(dom, selector);
    |m| > 0 && m[|m| - 1].interactive
  }

  /** The first file-input selector that yields an input. */
  function InputFor(dom: Dom): (k: Option<nat>)
    ensures k.Some? ==> k.value < |FileInputSelectors| && YieldsInput(dom, FileInputSelectors[k.value])
    ensures k.Some? ==> forall j :: 0 <= j < k.value ==> !YieldsInput(dom, FileInputSelectors[j])
    ensures k.None? ==> forall j :: 0 <= j < |FileInputSelectors| ==> !YieldsInput(dom, FileInputSelectors[j])
  {
    FirstYielding(dom, 0)
  }

  function FirstYielding(dom: Dom, from: nat): (k: Option<nat>)
    requires from <= |FileInputSelectors|
    ensures k.Some? ==> from <= k.value < |FileInputSelectors| && YieldsInput(dom, FileInputSelectors[k.value])
    ensures k.Some? ==> forall j :: from <= j < k.value ==> !YieldsInput(dom, FileInputSelectors[j])
    ensures k.None? ==> forall j :: from <= j < |FileInputSelectors| ==> !YieldsInput(dom, FileInputSelectors[j])
    decreases |FileInputSelectors| - from
  {
    if from == |FileInputSelectors| then None
    else if YieldsInput(dom, FileInputSelectors[from]) then Some(from)
    else FirstYielding(dom, from + 1)
  }

  /** The page as seen when batch `k` is processed; a batch never reached sees an empty page. */
  function ViewAt(views: seq<Dom>, k: nat): Dom
  {
    if k < |views| then views[k] else map[]
  }

  /** Assigning a batch to the last element of the first selector that yields an input. */
  function UploadAction(dom: Dom, batch: seq<TempFile>): Action
    requires InputFor(dom).Some?
  {
    var selector := FileInputSelectors[InputFor(dom).value];
    SetInputFiles(selector, |Matches(dom, selector)| - 1, batch)
  }

  /** Number of leading batches, from `k` on, for which the page yields an input. */
  function UploadedFrom(count: nat, views: seq<Dom>, k: nat): (n: nat)
    requires k <= count
    ensures k <= n <= count
    ensures forall j :: k <= j < n ==> InputFor(ViewAt(views, j)).Some?
    ensures n < count ==> InputFor(ViewAt(views, n)).None?
    decreases count - k
  {
    if k == count || InputFor(ViewAt(views, k)).None? then k
    else UploadedFrom(count, views, k + 1)
  }

  /** Each of the first `n` page views yields a file input. */
  predicate InputsFound(views: seq<Dom>, n: nat)
  {
    forall k :: 0 <= k < n ==> InputFor(ViewAt(views, k)).Some?
  }

  /** The uploads of the first `n` batches, each to the input its own page view yields. */
  function Uploads(batches: seq<seq<TempFile>>, views: seq<Dom>, n: nat): (actions: seq<Action>)
    requires n <= |batches|
    requires InputsFound(views, n)
    ensures |actions| == n
    ensures forall k :: 0 <= k < n ==> actions[k] == UploadAction(ViewAt(views, k), batches[k])
  {
    if n == 0 then []
    else Uploads(batches, views, n - 1) + [UploadAction(ViewAt(views, n - 1), batches[n - 1])]
  }

  /** Total size of the first `n` batches. */
  function SizeOfFirst<T>(batches: seq<seq<T>>, n: nat): (total: nat)
    requires n <= |batches|
    ensures total == |Flatten(batches[..n])|
  {
    if n == 0 then 0
    else
      FlattenAppend(batches[..n - 1], batches[n - 1]);
      assert batches[..n] == batches[..n - 1] + [batches[n - 1]];
      SizeOfFirst(batches, n - 1) + |batches[n - 1]|
  }

  lemma UploadsStep(batches: seq<seq<TempFile>>, views: seq<Dom>, b: nat)
    requires b < |batches|
    requires InputsFound(views, b)
    requires InputFor(ViewAt(views, b)).Some?
    ensures InputsFound(views, b + 1)
    ensures Uploads(batches, views, b + 1) == Uploads(batches, views, b) + [UploadAction(ViewAt(views, b), batches[b])]
  {
  }

  /** The loop stops at `n` when every earlier batch found an input and batch `n` did not (or none is left). */
  lemma UploadedFromIs(count: nat, views: seq<Dom>, n: nat)
    requires n <= count
    requires InputsFound(views, n)
    requires n < count ==> InputFor(ViewAt(views, n)).None?
    ensures UploadedFrom(count, views, 0) == n
  {
    var k := 0;
    while k < n
      invariant 0 <= k <= n
      invariant UploadedFrom(count, views, 0) == UploadedFrom(count, views, k)
    {
      k := k + 1;
    }
  }

  /**
   * The batch loop: each batch goes to the file input found on the page at that
   * moment; the loop stops at the first batch for which no selector yields an
   * input. `sent` counts the files of the batches actually assigned.
   */
  method SendBatches(batches: seq<seq<TempFile>>, views: seq<Dom>) returns (actions: seq<Action>, sent: nat)
    ensures |actions| == UploadedFrom(|batches|, views, 0)
    ensures actions == Uploads(batches, views, |actions|)
    ensures sent == |Flatten(batches[..|actions|])|
  {
    actions := [];
    sent := 0;
    var b := 0;
    while b < |batches|
      invariant 0 <= b <= |batches|
      invariant InputsFound(views, b)
      invariant actions == Uploads(batches, views, b)
      invariant sent == SizeOfFirst(batches, b)
    {
      var upload := UploadBatch(ViewAt(views, b), batches[b]);
      if upload.None? {
        break;
      }
      UploadsStep(batches, views, b);
      actions := actions + [upload.value];
      sent := sent + |batches[b]|;
      b := b + 1;
    }
    UploadedFromIs(|batches|, views, b);
  }

  /**
   * Offers one batch to the page: tries the file-input selectors in order and
   * assigns the batch to the last element of the first one that yields an input.
   */
  method UploadBatch(dom: Dom, batch: seq<TempFile>) returns (upload: Option<Action>)
    ensures upload.None? <==> InputFor(dom).None?
    ensures upload.Some? ==> InputFor(dom).Some? && upload.value == UploadAction(dom, batch)
  {
    var s := 0;
    while s < |FileInputSelectors|
      invariant 0 <= s <= |FileInputSelectors|
      invariant InputFor(dom) == FirstYielding(dom, s)
    {
      var inputs := Matches(dom, FileInputSelectors[s]);
      if |inputs| > 0 && inputs[|inputs| - 1].interactive {
        return Some(SetInputFiles(FileInputSelectors[s], |inputs| - 1, batch));
      }
      s := s + 1;
    }
    return None;
  }

  /**
   * The sent count never exceeds the downloaded count, and equals it exactly
   * when every batch was sent.
   */
  lemma SentAccounting<T>(batches: seq<seq<T>>, n: nat)
    requires n <= |batches|
    requires forall k :: 0 <= k < |batches| ==> |batches[k]| > 0
    ensures |Flatten(batches[..n])| <= |Flatten(batches)|
    ensures |Flatten(batches[..n])| == |Flatten(batches)| <==> n == |batches|
  {
    FlattenSplit(batches, n);
    if n < |batches| {
      FlattenSplit(batches[n..], 1);
      assert batches[n..][..1] == [batches[n]];
      assert Flatten([batches[n]]) == batches[n] + Flatten<T>([]);
    } else {
      assert batches[n..] == [];
    }
  }

  /**
   * The photo pipeline. No URL: success without doing anything. No usable
   * download: failure. Otherwise the downloads are split into batches and
   * uploaded until the first batch without a file input, and the result is
   * success even when only some batches were sent.
   */
  method UploadPhotos(fetches: seq<Fetch>, views: seq<Dom>) returns (ok: bool, actions: seq<Action>, sent: nat)
    ensures ok <==> |fetches| == 0 || Downloads(fetches) != []
    ensures !ok || |fetches| == 0 ==> actions == [] && sent == 0
    ensures ok && |fetches| > 0 ==>
      var batches := Batches(Downloads(fetches));
      |actions| == UploadedFrom(|batches|, views, 0)
      && actions == Uploads(batches, views, |actions|)
      && sent == |Flatten(batches[..|actions|])|
    ensures sent <= |Downloads(fetches)|
    ensures sent == |Downloads(fetches)| <==> |actions| == |Batches(Downloads(fetches))|
  {
    if |fetches| == 0 {
      return true, [], 0;
    }
    var files := DownloadPhotos(fetches);
    if files == [] {
      return false, [], 0;
    }
    var batches := Batches(files);
    actions, sent := SendBatches(batches, views);
    FlattenBatches(files);
    SentAccounting(batches, |actions|);
    ok := true;
  }

  // ---------------------------------------------------------------------------
  // Footer readiness
  // ---------------------------------------------------------------------------

  /** Selectors of the form's action buttons. */
  const FooterSelectors: seq<string> := [
    "button:has-text(\"Criar anúncio\")",
    "button:has-text(\"Publicar\")",
    "button:has-text(\"Salvar\")",
    "button[type=\"submit\"]",
    "input[type=\"submit\"]"
  ]

  /** Total number of elements matched by the selectors. */
  function TotalMatches(dom: Dom, selectors: seq<string>): nat
  {
    if |selectors| == 0 then 0
    else TotalMatches(dom, selectors[..|selectors| - 1]) + |Matches(dom, selectors[|selectors| - 1])|
  }

  /** The total is positive exactly when some selector matches something. */
  lemma {:induction false} TotalMatchesPositive(dom: Dom, selectors: seq<string>)
    ensures TotalMatches(dom, selectors) > 0 <==>
      exists i :: 0 <= i < |selectors| && |Matches(dom, selectors[i])| > 0
    decreases |selectors|
  {
    if |selectors| > 0 {
      var init := selectors[..|selectors| - 1];
      TotalMatchesPositive(dom, init);
      if TotalMatches(dom, init) > 0 {
        var i :| 0 <= i < |init| && |Matches(dom, init[i])| > 0;
        assert selectors[i] == init[i];
      }
      if exists i :: 0 <= i < |selectors| && |Matches(dom, selectors[i])| > 0 {
        var i :| 0 <= i < |selectors| && |Matches(dom, selectors[i])| > 0;
        if i < |init| {
          assert init[i] == selectors[i];
        }
      }
    }
  }

  /**
   * The readiness check: scrolls to the bottom, counts the action buttons and
   * reports whether there is at least one. `scrolled` says whether the scroll
   * call returned; the scroll has no handler of its own, so when it raises the
   * check reports false without counting. It inspects the page only; it
   * produces no action, so it never clicks a create or submit button.
   */
  method CheckFooter(dom: Dom, scrolled: bool) returns (ready: bool, found: nat)
    ensures scrolled ==> found == TotalMatches(dom, FooterSelectors)
    ensures !scrolled ==> found == 0
    ensures ready <==> scrolled && exists i :: 0 <= i < |FooterSelectors| && |Matches(dom, FooterSelectors[i])| > 0
  {
    found := 0;
    if !scrolled {
      return false, 0;
    }
    var i := 0;
    while i < |FooterSelectors|
      invariant 0 <= i <= |FooterSelectors|
      invariant found == TotalMatches(dom, FooterSelectors[..i])
    {
      assert FooterSelectors[..i + 1][..i] == FooterSelectors[..i];
      var count := |Matches(dom, FooterSelectors[i])|;
      if count > 0 {
        found := found + count;
      }
      i := i + 1;
    }
    assert FooterSelectors[..i] == FooterSelectors;
    TotalMatchesPositive(dom, FooterSelectors);
    ready := found > 0;
  }
}
