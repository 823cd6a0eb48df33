/** What the script does with a catalog query result: it recovers the product keys from
    the printed form of `products.keys()`, picks one title per event, and either collects
    titles or triggers downloads. The query result is an ordered dictionary, modelled as
    a sequence of (key, title) products; the catalog service itself is a parameter. */
module Catalog {
  import opened Outcomes
  import opened PyStr

  datatype Product = Product(key: string, title: string)

  function KeysOf(products: seq<Product>): (keys: seq<string>)
    ensures |keys| == |products|
    ensures forall i :: 0 <= i < |products| ==> keys[i] == products[i].key
  {
    seq(|products|, i requires 0 <= i < |products| => products[i].key)
  }

  /** `repr(k)` of a key, for printable keys without quotes or backslashes. */
  function Repr(k: string): string { "'" + k + "'" }

  /** The items of a printed list: `'k0', 'k1', ...`. */
  function ReprItems(keys: seq<string>): string
  {
    if |keys| == 0 then []
    else if |keys| == 1 then Repr(keys[0])
    else Repr(keys[0]) + ", " + ReprItems(keys[1..])
  }

  const KEYS_PREFIX: string := "odict_keys(["
  const KEYS_SUFFIX: string := "])"

  /** `str(products.keys())` for an ordered dictionary with these keys. */
  function RenderKeys(keys: seq<string>): string
  {
    KEYS_PREFIX + (ReprItems(keys) + KEYS_SUFFIX)
  }

  /** How the cleaning loop trims piece `i`: `[1:-1]` for the first, `[2:-1]` for the rest. */
  function StripQuotes(piece: string, i: nat): string
  {
    if i == 0 then Slice(piece, 1, -1) else Slice(piece, 2, -1)
  }

  /** The pieces `str(products.keys())[12:-2].split(',')` before trimming. */
  function RawPieces(printed: string): (pieces: seq<string>)
    ensures |pieces| >= 1
  {
    Split(Slice(printed, 12, -2), ',')
  }

  /** The key list the cleaning loop leaves behind. */
  function CleanedKeys(printed: string): (keys: seq<string>)
    ensures |keys| == |RawPieces(printed)|
  {
    var pieces := RawPieces(printed);
    seq(|pieces|, i requires 0 <= i < |pieces| => StripQuotes(pieces[i], i))
  }

  /** The slice, the split and the loop that rewrites `cleaning_data[i]` in place. */
  method CleanKeys(printed: string) returns (cleaningData: seq<string>)
    ensures cleaningData == CleanedKeys(printed)
    ensures |cleaningData| >= 1
  {
    var sliced := Slice(printed, 12, -2);
    cleaningData := Split(sliced, ',');
    ghost var pieces := cleaningData;
    var i := 0;
    while i < |cleaningData|
      invariant 0 <= i <= |cleaningData| == |pieces|
      invariant forall j :: 0 <= j < i ==> cleaningData[j] == StripQuotes(pieces[j], j)
      invariant forall j :: i <= j < |pieces| ==> cleaningData[j] == pieces[j]
    {
      if i == 0 {
        cleaningData := cleaningData[i := Slice(cleaningData[i], 1, -1)];
      } else {
        cleaningData := cleaningData[i := Slice(cleaningData[i], 2, -1)];
      }
      i := i + 1;
    }
  }

  /** The number of extracted keys is the number of commas in the sliced text plus one. */
  lemma KeyCount(printed: string)
    ensures |CleanedKeys(printed)| == Count(Slice(printed, 12, -2), ',') + 1
  {
    SplitCount(Slice(printed, 12, -2), ',');
  }

  /** The printed items, cut at every comma: the first item's quoted key, then each
      further quoted key with the blank that followed its comma. */
  function ItemPieces(keys: seq<string>): (pieces: seq<string>)
    ensures |pieces| == |keys|
  {
    seq(|keys|, i requires 0 <= i < |keys| => if i == 0 then Repr(keys[0]) else " " + Repr(keys[i]))
  }

  lemma JoinPrefixFirst(x: string, p: string, ps: seq<string>, sep: char)
    ensures Join([x + p] + ps, sep) == x + Join([p] + ps, sep)
  {
    if |ps| > 0 {
      assert ([x + p] + ps)[1..] == ps;
      assert ([p] + ps)[1..] == ps;
    }
  }

  lemma ItemPiecesTail(keys: seq<string>)
    requires |keys| > 1
    ensures ItemPieces(keys)[1..] == [" " + ItemPieces(keys[1..])[0]] + ItemPieces(keys[1..])[1..]
  {
    var rest := keys[1..];
    assert ItemPieces(rest)[0] == Repr(keys[1]);
    forall i | 0 <= i < |keys| - 1
      ensures ItemPieces(keys)[1..][i] == ([" " + ItemPieces(rest)[0]] + ItemPieces(rest)[1..])[i]
    {
      if i > 0 {
        assert ItemPieces(rest)[i] == " " + Repr(rest[i]);
      }
    }
  }

  lemma {:induction false} ItemsAreJoinedPieces(keys: seq<string>)
    requires |keys| >= 1
    ensures ReprItems(keys) == Join(ItemPieces(keys), ',')
    decreases |keys|
  {
    if |keys| > 1 {
      var rest := keys[1..];
      ItemsAreJoinedPieces(rest);
      var pieces, tail := ItemPieces(keys), ItemPieces(rest);
      ItemPiecesTail(keys);
      assert tail == [tail[0]] + tail[1..];
      JoinPrefixFirst(" ", tail[0], tail[1..], ',');
      assert Join(pieces, ',') == pieces[0] + [','] + Join(pieces[1..], ',');
      assert Join(pieces[1..], ',') == " " + Join(tail, ',');
      assert ", " == [','] + " ";
      assert ReprItems(keys) == Repr(keys[0]) + ", " + Join(tail, ',');
    }
  }

  /** Round trip: for a non-empty list of comma-free keys the cleaning recovers exactly
      the keys, in order, from `str(products.keys())`. */
  lemma ExtractRendered(keys: seq<string>)
    requires |keys| >= 1
    requires forall i :: 0 <= i < |keys| ==> ',' !in keys[i]
    ensures CleanedKeys(RenderKeys(keys)) == keys
  {
    var printed := RenderKeys(keys);
    var items := ReprItems(keys);
    assert printed[12..|printed| - 2] == items;
    SliceFromEnd(printed, 12, 2);
    ItemsAreJoinedPieces(keys);
    var pieces := ItemPieces(keys);
    forall i | 0 <= i < |pieces|
      ensures ',' !in pieces[i]
    {
      assert pieces[i] == if i == 0 then Repr(keys[0]) else " " + Repr(keys[i]);
    }
    SplitJoin(pieces, ',');
    assert RawPieces(printed) == pieces;
    forall i | 0 <= i < |keys|
      ensures StripQuotes(pieces[i], i) == keys[i]
    {
      PieceStrips(keys, i);
    }
  }

  /** Trimming piece `i` of the printed items gives back key `i`. */
  lemma PieceStrips(keys: seq<string>, i: nat)
    requires i < |keys|
    ensures StripQuotes(ItemPieces(keys)[i], i) == keys[i]
  {
    if i == 0 {
      StripFirst(keys[0]);
    } else {
      StripLater(keys[i], i);
    }
  }

  lemma StripFirst(k: string)
    ensures StripQuotes(Repr(k), 0) == k
  {
    SliceFromEnd(Repr(k), 1, 1);
    assert Repr(k)[1..|Repr(k)| - 1] == k;
  }

  lemma StripLater(k: string, i: nat)
    requires i > 0
    ensures StripQuotes(" " + Repr(k), i) == k
  {
    var piece := " " + Repr(k);
    SliceFromEnd(piece, 2, 1);
    assert piece[2..|piece| - 1] == k;
  }

  /** `products[key]['title']`: `None` stands for the `KeyError` of a missing key. */
  function Lookup(products: seq<Product>, key: string): (title: Option<string>)
    ensures title.Some? <==> exists i :: 0 <= i < |products| && products[i].key == key
    ensures title.Some? ==> exists i :: 0 <= i < |products| && products[i].key == key && products[i].title == title.value
    decreases |products|
  {
    if products == [] then None
    else if products[0].key == key then Some(products[0].title)
    else
      var rest := Lookup(products[1..], key);
      assert forall i :: 0 < i < |products| ==> products[i] == products[1..][i - 1];
      rest
  }

  /** The key the script looks up: `product_keys[i]`, where the cleaning loop has left
      its own `i` (which shadows the event index) at the last position. */
  function PickedKey(products: seq<Product>): string
  {
    var keys := CleanedKeys(RenderKeys(KeysOf(products)));
    keys[|keys| - 1]
  }

  /** The title the loop body looks up for a non-empty result, or `None` for a `KeyError`. */
  function PickedTitle(products: seq<Product>): Option<string>
  {
    Lookup(products, PickedKey(products))
  }

  /** Lines 104-113 and the lookup `products[product_keys[i]]['title']`: print the keys,
      clean them, and look up the key the shadowed `i` designates. */
  method PickTitle(products: seq<Product>) returns (title: Option<string>)
    ensures title == PickedTitle(products)
  {
    var productKeys := CleanKeys(RenderKeys(KeysOf(products)));
    var i := |productKeys| - 1;  // where the cleaning loop leaves its index
    title := Lookup(products, productKeys[i]);
  }

  /** Keys an ordered dictionary can hold (distinct) and that the cleaning recovers (no
      commas), among the keys `Repr` models: printable, without quotes or backslashes.
      A key that `repr` escapes is not recovered by the cleaning in the script. */
  ghost predicate WellKeyed(products: seq<Product>)
  {
    && (forall i, j :: 0 <= i < j < |products| ==> products[i].key != products[j].key)
    && (forall i :: 0 <= i < |products| ==> ',' !in products[i].key)
  }

  /** Title pick: for a non-empty, well-keyed result the looked-up title is the last
      product's, whatever the event and however many products there are. */
  lemma TitlePick(products: seq<Product>)
    requires |products| >= 1 && WellKeyed(products)
    ensures PickedTitle(products) == Some(products[|products| - 1].title)
  {
    var keys := KeysOf(products);
    ExtractRendered(keys);
    var n := |products| - 1;
    assert PickedKey(products) == products[n].key;
    LookupDistinct(products, n);
  }

  lemma {:induction false} LookupDistinct(products: seq<Product>, n: nat)
    requires n < |products|
    requires forall i, j :: 0 <= i < j < |products| ==> products[i].key != products[j].key
    ensures Lookup(products, products[n].key) == Some(products[n].title)
    decreases n
  {
    if n > 0 {
      assert products[0].key != products[n].key;
      var rest := products[1..];
      assert rest[n - 1] == products[n];
      LookupDistinct(rest, n - 1);
    }
  }

  /** Which loop the collection runs in: they differ in whether the title is looked up
      (and so may raise `KeyError`) when auto-download is on. */
  datatype Mode = RealtimeMode | HistoricMode

  /** What the collection produces: `product_list`, and the product sets handed to
      `download_all`, in call order. */
  datatype Collected = Collected(titles: seq<string>, downloads: seq<seq<Product>>)

  /** The body of the per-event loop for one query result. */
  function Handle(products: seq<Product>, autoDownload: string, mode: Mode): Outcome<Collected>
  {
    if |products| == 0 then Returned(Collected([], []))
    else
      var title := PickedTitle(products);
      if autoDownload == "on" then
        if mode == RealtimeMode && title.None? then Raised(KeyError)
        else Returned(Collected([], [products]))
      else if title.None? then Raised(KeyError)
      else Returned(Collected([title.value], []))
  }

  /** Running `more` after `done`: the first exception wins, otherwise the results add up. */
  function Then(done: Outcome<Collected>, more: Outcome<Collected>): Outcome<Collected>
  {
    match done
    case Raised(e) => Raised(e)
    case Returned(c) =>
      match more
      case Raised(e) => Raised(e)
      case Returned(d) => Returned(Collected(c.titles + d.titles, c.downloads + d.downloads))
  }

  /** Per-event outcomes run in order. */
  function Fold(outs: seq<Outcome<Collected>>): Outcome<Collected>
    decreases |outs|
  {
    if outs == [] then Returned(Collected([], []))
    else Then(Fold(outs[..|outs| - 1]), outs[|outs| - 1])
  }

  lemma FoldSnoc(outs: seq<Outcome<Collected>>, o: Outcome<Collected>)
    ensures Fold(outs + [o]) == Then(Fold(outs), o)
  {
    assert (outs + [o])[..|outs|] == outs;
  }

  /** Once an event has raised, the loop has raised with it: later events change nothing. */
  lemma {:induction false} RaisedStays(outs: seq<Outcome<Collected>>, i: nat)
    requires i <= |outs| && Fold(outs[..i]).Raised?
    ensures Fold(outs) == Fold(outs[..i])
    decreases |outs| - i
  {
    if i < |outs| {
      var n := |outs| - 1;
      assert outs[..n][..i] == outs[..i];
      RaisedStays(outs[..n], i);
    } else {
      assert outs[..i] == outs;
    }
  }

  /** A fold of outcomes that raise nothing but `KeyError` raises nothing else either. */
  lemma {:induction false} FoldKeyErrorOnly(outs: seq<Outcome<Collected>>)
    requires forall k :: 0 <= k < |outs| ==> outs[k].Raised? ==> outs[k].error == KeyError
    ensures Fold(outs).Raised? ==> Fold(outs).error == KeyError
    decreases |outs|
  {
    if outs != [] {
      var n := |outs| - 1;
      assert forall k :: 0 <= k < n ==> outs[..n][k] == outs[k];
      FoldKeyErrorOnly(outs[..n]);
    }
  }

  /** What each event's query result leads to, in event order. */
  function EventOutcomes(firstDate: seq<int>, lastDate: seq<int>, query: (int, int) -> seq<Product>,
                    autoDownload: string, mode: Mode): (outs: seq<Outcome<Collected>>)
    requires |firstDate| == |lastDate|
  {
    seq(|firstDate|, k requires 0 <= k < |firstDate| => Handle(query(firstDate[k], lastDate[k]), autoDownload, mode))
  }

  /** The per-event loop over `first_date`/`last_date`, stopped by the first exception. */
  function Collect(firstDate: seq<int>, lastDate: seq<int>, query: (int, int) -> seq<Product>,
                   autoDownload: string, mode: Mode): Outcome<Collected>
    requires |firstDate| == |lastDate|
  {
    Fold(EventOutcomes(firstDate, lastDate, query, autoDownload, mode))
  }

  lemma CollectSnoc(firstDate: seq<int>, lastDate: seq<int>, query: (int, int) -> seq<Product>,
                    autoDownload: string, mode: Mode)
    requires |firstDate| == |lastDate| > 0
    ensures var n := |firstDate| - 1;
      Collect(firstDate, lastDate, query, autoDownload, mode) ==
      Then(Collect(firstDate[..n], lastDate[..n], query, autoDownload, mode),
           Handle(query(firstDate[n], lastDate[n]), autoDownload, mode))
  {
    var n := |firstDate| - 1;
    var outs := EventOutcomes(firstDate, lastDate, query, autoDownload, mode);
    assert outs[..n] == EventOutcomes(firstDate[..n], lastDate[..n], query, autoDownload, mode);
    assert outs == outs[..n] + [outs[n]];
    FoldSnoc(outs[..n], outs[n]);
  }

  /** The loop over events can only raise `KeyError`, from a title lookup. */
  lemma KeyErrorOnly(firstDate: seq<int>, lastDate: seq<int>, query: (int, int) -> seq<Product>,
                     autoDownload: string, mode: Mode)
    requires |firstDate| == |lastDate|
    ensures var r := Collect(firstDate, lastDate, query, autoDownload, mode); r.Raised? ==> r.error == KeyError
  {
    var outs := EventOutcomes(firstDate, lastDate, query, autoDownload, mode);
    forall k | 0 <= k < |outs| ensures outs[k].Raised? ==> outs[k].error == KeyError {
      assert outs[k] == Handle(query(firstDate[k], lastDate[k]), autoDownload, mode);
    }
    FoldKeyErrorOnly(outs);
  }

  /** With auto-download off, a well-keyed result yields its last product's title, and an
      empty one yields nothing. */
  lemma HandleOff(products: seq<Product>, autoDownload: string, mode: Mode)
    requires autoDownload != "on" && WellKeyed(products)
    ensures Handle(products, autoDownload, mode) ==
            Returned(Collected(LastTitle(products), []))
  {
    if |products| > 0 {
      TitlePick(products);
    }
  }

  /** With auto-download on, `realtime` hands a well-keyed result to `download_all` and raises nothing. */
  lemma HandleOnRealtime(products: seq<Product>)
    requires WellKeyed(products)
    ensures Handle(products, "on", RealtimeMode) ==
            Returned(Collected([], Found(products)))
  {
    if |products| > 0 {
      TitlePick(products);
    }
  }

  /** The loop over events in `realtime` and in `historic`. */
  method CollectTitles(firstDate: seq<int>, lastDate: seq<int>, query: (int, int) -> seq<Product>,
                       autoDownload: string, mode: Mode) returns (r: Outcome<Collected>)
    requires |firstDate| == |lastDate|
    ensures r == Collect(firstDate, lastDate, query, autoDownload, mode)
  {
    ghost var outs := EventOutcomes(firstDate, lastDate, query, autoDownload, mode);
    var productList: seq<string> := [];
    var downloads: seq<seq<Product>> := [];
    var i := 0;
    while i < |firstDate|
      invariant 0 <= i <= |firstDate|
      invariant Fold(outs[..i]) == Returned(Collected(productList, downloads))
    {
      assert outs[..i + 1] == outs[..i] + [outs[i]];
      FoldSnoc(outs[..i], outs[i]);
      ghost var before := Collected(productList, downloads);
      var products := query(firstDate[i], lastDate[i]);
      assert outs[i] == Handle(products, autoDownload, mode);
      if |products| == 0 {
        assert outs[i] == Returned(Collected([], []));
        assert productList + [] == productList && downloads + [] == downloads;
      } else {
        var title := PickTitle(products);
        if autoDownload == "on" {
          downloads := downloads + [products];
          if mode == RealtimeMode && title.None? {
            assert outs[i] == Raised(KeyError);
            RaisedStays(outs, i + 1);
            return Raised(KeyError);
          }
          assert outs[i] == Returned(Collected([], [products]));
          assert productList + [] == productList;
        } else {
          if title.None? {
            assert outs[i] == Raised(KeyError);
            RaisedStays(outs, i + 1);
            return Raised(KeyError);
          }
          assert outs[i] == Returned(Collected([title.value], []));
          assert downloads + [] == downloads;
          productList := productList + [title.value];
        }
      }
      assert Then(Returned(before), outs[i]) == Returned(Collected(productList, downloads));
      i := i + 1;
    }
    assert outs[..i] == outs;
    r := Returned(Collected(productList, downloads));
  }

  /** What one event adds to `product_list` when nothing raises: its last product's title,
      or nothing for an empty result. */
  function LastTitle(products: seq<Product>): seq<string>
  {
    if |products| == 0 then [] else [products[|products| - 1].title]
  }

  /** What one event hands to `download_all`: its products, or nothing for an empty result. */
  function Found(products: seq<Product>): seq<seq<Product>>
  {
    if |products| == 0 then [] else [products]
  }

  /** The last product's title of every event whose query returned something, in event order. */
  function LastTitles(firstDate: seq<int>, lastDate: seq<int>, query: (int, int) -> seq<Product>): seq<string>
    requires |firstDate| == |lastDate|
    decreases |firstDate|
  {
    if firstDate == [] then []
    else
      var n := |firstDate| - 1;
      var products := query(firstDate[n], lastDate[n]);
      LastTitles(firstDate[..n], lastDate[..n], query)
        + LastTitle(products)
  }

  /** The events whose query returned something, with their products, in event order. */
  function FoundProducts(firstDate: seq<int>, lastDate: seq<int>, query: (int, int) -> seq<Product>): seq<seq<Product>>
    requires |firstDate| == |lastDate|
    decreases |firstDate|
  {
    if firstDate == [] then []
    else
      var n := |firstDate| - 1;
      var products := query(firstDate[n], lastDate[n]);
      FoundProducts(firstDate[..n], lastDate[..n], query) + Found(products)
  }

  /** With auto-download off and well-keyed results, nothing raises and exactly one title
      is collected per event with a non-empty result: its last product's. Events with an
      empty result contribute nothing and raise nothing. */
  lemma {:induction false} OneTitlePerEvent(firstDate: seq<int>, lastDate: seq<int>, query: (int, int) -> seq<Product>,
                                            autoDownload: string, mode: Mode)
    requires |firstDate| == |lastDate| && autoDownload != "on"
    requires forall k :: 0 <= k < |firstDate| ==> WellKeyed(query(firstDate[k], lastDate[k]))
    ensures Collect(firstDate, lastDate, query, autoDownload, mode) ==
            Returned(Collected(LastTitles(firstDate, lastDate, query), []))
    decreases |firstDate|
  {
    if firstDate == [] {
      assert EventOutcomes(firstDate, lastDate, query, autoDownload, mode) == [];
    } else {
      var n := |firstDate| - 1;
      assert forall k :: 0 <= k < n ==> firstDate[..n][k] == firstDate[k] && lastDate[..n][k] == lastDate[k];
      OneTitlePerEvent(firstDate[..n], lastDate[..n], query, autoDownload, mode);
      var products := query(firstDate[n], lastDate[n]);
      HandleOff(products, autoDownload, mode);
      CollectSnoc(firstDate, lastDate, query, autoDownload, mode);
      LastTitlesSnoc(firstDate, lastDate, query);
      var none: seq<seq<Product>> := [];
      assert none + none == none;
    }
  }

  lemma LastTitlesSnoc(firstDate: seq<int>, lastDate: seq<int>, query: (int, int) -> seq<Product>)
    requires |firstDate| == |lastDate| > 0
    ensures var n := |firstDate| - 1;
      LastTitles(firstDate, lastDate, query) ==
      LastTitles(firstDate[..n], lastDate[..n], query) + LastTitle(query(firstDate[n], lastDate[n]))
  {
  }

  /** In `historic` with auto-download on, nothing is looked up, so nothing raises: every
      non-empty result is handed to `download_all` and no title is collected. */
  lemma {:induction false} HistoricDownloadsAll(firstDate: seq<int>, lastDate: seq<int>, query: (int, int) -> seq<Product>)
    requires |firstDate| == |lastDate|
    ensures Collect(firstDate, lastDate, query, "on", HistoricMode) ==
            Returned(Collected([], FoundProducts(firstDate, lastDate, query)))
    decreases |firstDate|
  {
    if firstDate == [] {
      assert EventOutcomes(firstDate, lastDate, query, "on", HistoricMode) == [];
    } else {
      var n := |firstDate| - 1;
      HistoricDownloadsAll(firstDate[..n], lastDate[..n], query);
      var products := query(firstDate[n], lastDate[n]);
      assert Handle(products, "on", HistoricMode) == Returned(Collected([], Found(products)));
      CollectSnoc(firstDate, lastDate, query, "on", HistoricMode);
      var none: seq<string> := [];
      assert none + none == none;
    }
  }

  /** With auto-download on and well-keyed results, `realtime` also downloads every
      non-empty result without raising. */
  lemma {:induction false} RealtimeDownloadsAll(firstDate: seq<int>, lastDate: seq<int>, query: (int, int) -> seq<Product>)
    requires |firstDate| == |lastDate|
    requires forall k :: 0 <= k < |firstDate| ==> WellKeyed(query(firstDate[k], lastDate[k]))
    ensures Collect(firstDate, lastDate, query, "on", RealtimeMode) ==
            Returned(Collected([], FoundProducts(firstDate, lastDate, query)))
    decreases |firstDate|
  {
    if firstDate == [] {
      assert EventOutcomes(firstDate, lastDate, query, "on", RealtimeMode) == [];
    } else {
      var n := |firstDate| - 1;
      assert forall k :: 0 <= k < n ==> firstDate[..n][k] == firstDate[k] && lastDate[..n][k] == lastDate[k];
      RealtimeDownloadsAll(firstDate[..n], lastDate[..n], query);
      var products := query(firstDate[n], lastDate[n]);
      HandleOnRealtime(products);
      CollectSnoc(firstDate, lastDate, query, "on", RealtimeMode);
      var none: seq<string> := [];
      assert none + none == none;
    }
  }
}
