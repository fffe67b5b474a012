/** The multi-product tracker (ippodo_tea.py): a three-way classification of
    the status node's text by exact, case-insensitive comparison of its
    normalised form with two markers, a credential-gated alert e-mail, and a
    single pass over the product list. */
module Ippodo {
  import opened Text
  import opened Normalize
  import opened Scrape

  /** Marker defaults used when the environment does not override them. */
  const DefaultInStockText := "Add to bag"
  const DefaultSoldOutText := "Sold Out"

  /** The in-stock and sold-out markers in force for a run. */
  datatype Markers = Markers(inStock: string, soldOut: string)

  const DefaultMarkers := Markers(DefaultInStockText, DefaultSoldOutText)

  /** The four results of `check_stock`. `OutOfStock` is the sold-out
      verdict and `MissingElement` the verdict for a page without a status
      node; the two are spelled differently. */
  datatype Status = OutOfStock | InStock | Error | MissingElement

  /** The exact string `check_stock` returns for each status. */
  function StatusText(st: Status): string {
    match st
    case OutOfStock => "Out of Stock"
    case InStock => "In Stock"
    case Error => "Error"
    case MissingElement => "Out Of Stock"
  }

  /** The four strings are pairwise distinct, so the string result loses
      nothing. */
  lemma StatusTextInjective(a: Status, b: Status)
    ensures StatusText(a) == StatusText(b) <==> a == b
  {
  }

  /** The form of the node text that is compared with the markers:
      `norm_text(text).lower()`. */
  function Key(nf: string -> string, text: string): (k: string)
    ensures Canonical(k)
  {
    var n := NormText(nf, text);
    LowerSquash(nf(text));
    Lower(n)
  }

  /** The comparison key is the lowercased NFKC text's words joined by single
      spaces, Python's `" ".join(nf(text).lower().split())`. */
  lemma KeyIsJoinedWords(nf: string -> string, text: string)
    ensures Key(nf, text) == Join(Words(Lower(nf(text))))
  {
    LowerSquash(nf(text));
    SquashIsJoinOfWords(Lower(nf(text)));
  }

  /** The sold-out test: the raw text equals the marker, or the key equals
      the lowercased (but not normalised) marker. */
  predicate SoldOutMatch(m: Markers, nf: string -> string, text: string) {
    m.soldOut == text || Lower(m.soldOut) == Key(nf, text)
  }

  /** `check_stock(product)`, given what fetching and parsing the product's
      page produced. */
  function CheckStock(m: Markers, nf: string -> string, probe: Probe): (st: Status)
    ensures probe.Raised? ==> st == Error
    ensures st == MissingElement <==> probe == Fetched(None)
    ensures st == OutOfStock <==>
      probe.Fetched? && probe.node.Some? && SoldOutMatch(m, nf, probe.node.value)
    ensures st == InStock <==>
      probe.Fetched? && probe.node.Some? && !SoldOutMatch(m, nf, probe.node.value) &&
      Lower(m.inStock) == Key(nf, probe.node.value)
    ensures st == Error <==>
      probe.Raised? ||
      (probe.Fetched? && probe.node.Some? && !SoldOutMatch(m, nf, probe.node.value) &&
       Lower(m.inStock) != Key(nf, probe.node.value))
  {
    match probe
    case Raised(_) => Error
    case Fetched(None) => MissingElement
    case Fetched(Some(text)) =>
      if SoldOutMatch(m, nf, text) then OutOfStock
      else if Lower(m.inStock) == Key(nf, text) then InStock
      else Error
  }

  /** The verdict on a located node, against the reference definition: the
      node is sold out when its raw text is the marker or the lowercased
      marker equals `" ".join(nf(text).lower().split())`; otherwise it is in
      stock exactly when that joined form equals the lowercased in-stock
      marker, and an error in every other case. */
  lemma CheckStockByWords(m: Markers, nf: string -> string, text: string)
    ensures var st := CheckStock(m, nf, Fetched(Some(text)));
      var joined := Join(Words(Lower(nf(text))));
      && (st == OutOfStock <==> m.soldOut == text || Lower(m.soldOut) == joined)
      && (st == InStock <==> m.soldOut != text && Lower(m.soldOut) != joined && Lower(m.inStock) == joined)
      && (st == Error <==> m.soldOut != text && Lower(m.soldOut) != joined && Lower(m.inStock) != joined)
  {
    CheckStockByKey(m, nf, text, Key(nf, text));
    KeyIsJoinedWords(nf, text);
  }

  /** The sold-out test against the reference definition: the raw text is
      the marker, or the lowercased marker equals
      `" ".join(nf(text).lower().split())`. */
  lemma SoldOutMatchByWords(m: Markers, nf: string -> string, text: string)
    ensures SoldOutMatch(m, nf, text) <==>
      m.soldOut == text || Lower(m.soldOut) == Join(Words(Lower(nf(text))))
  {
    var key := Key(nf, text);
    assert SoldOutMatch(m, nf, text) <==> m.soldOut == text || Lower(m.soldOut) == key;
    KeyIsJoinedWords(nf, text);
  }

  /** Under the default markers, a node whose key is "sold out" is sold out. */
  lemma DefaultSoldOutLabel(nf: string -> string, text: string)
    requires Key(nf, text) == "sold out"
    ensures CheckStock(DefaultMarkers, nf, Fetched(Some(text))) == OutOfStock
  {
    LowerDefaultSoldOut();
  }

  /** Under the default markers, a node whose key is "add to bag" is in
      stock, unless its raw text is exactly "Sold Out" (which an NFKC
      stand-in could in principle key as "add to bag"): the raw-equality
      sold-out test comes first. */
  lemma DefaultInStockLabel(nf: string -> string, text: string)
    requires Key(nf, text) == "add to bag"
    ensures CheckStock(DefaultMarkers, nf, Fetched(Some(text))) ==
      (if text == DefaultSoldOutText then OutOfStock else InStock)
  {
    var m := DefaultMarkers;
    LowerDefaultInStock();
    LowerDefaultSoldOut();
    assert Lower(m.soldOut) != Lower(m.inStock) by {
      assert |Lower(m.soldOut)| != |Lower(m.inStock)|;
    }
    InStockLabel(m, nf, text);
  }

  /** With distinct lowercased markers, a node keyed as the in-stock marker
      is in stock unless its raw text is exactly the sold-out marker. */
  lemma InStockLabel(m: Markers, nf: string -> string, text: string)
    requires Lower(m.soldOut) != Lower(m.inStock)
    requires Key(nf, text) == Lower(m.inStock)
    ensures CheckStock(m, nf, Fetched(Some(text))) ==
      (if text == m.soldOut then OutOfStock else InStock)
  {
  }

  /** The lowercased default markers, as the sold-out and in-stock tests see
      them. */
  lemma LowerDefaultSoldOut()
    ensures Lower(DefaultSoldOutText) == "sold out"
  {
    LowerOfMarker(DefaultSoldOutText, "sold out");
  }

  lemma LowerDefaultInStock()
    ensures Lower(DefaultInStockText) == "add to bag"
  {
    LowerOfMarker(DefaultInStockText, "add to bag");
  }

  /** `Lower(s) == t` character by character. */
  lemma LowerOfMarker(s: string, t: string)
    requires |s| == |t|
    requires forall i :: 0 <= i < |s| ==> LowerChar(s[i]) == t[i]
    ensures Lower(s) == t
  {
  }

  /** The verdict on a located node as a function of its key. */
  lemma CheckStockByKey(m: Markers, nf: string -> string, text: string, key: string)
    requires key == Key(nf, text)
    ensures var st := CheckStock(m, nf, Fetched(Some(text)));
      && (st == OutOfStock <==> m.soldOut == text || Lower(m.soldOut) == key)
      && (st == InStock <==> m.soldOut != text && Lower(m.soldOut) != key && Lower(m.inStock) == key)
      && (st == Error <==> m.soldOut != text && Lower(m.soldOut) != key && Lower(m.inStock) != key)
  {
  }

  /** The sold-out test runs first: a text matching both markers is sold
      out, never in stock. */
  lemma SoldOutPrecedence(m: Markers, nf: string -> string, text: string)
    requires SoldOutMatch(m, nf, text)
    requires Lower(m.inStock) == Key(nf, text)
    ensures CheckStock(m, nf, Fetched(Some(text))) == OutOfStock
  {
  }

  /** A text already in normal form is its own comparison key, up to case. */
  lemma KeyOfNormalText(nf: string -> string, text: string)
    requires nf(text) == text && Canonical(text)
    ensures Key(nf, text) == Lower(text)
  {
    SquashFixesCanonical(text);
  }

  /** Under a normal-form sold-out marker, the sold-out test is a test on
      the key alone. */
  lemma SoldOutMatchByKey(m: Markers, nf: string -> string, t1: string, t2: string)
    requires nf(m.soldOut) == m.soldOut && Canonical(m.soldOut)
    requires Key(nf, t1) == Key(nf, t2)
    ensures SoldOutMatch(m, nf, t1) <==> SoldOutMatch(m, nf, t2)
  {
    KeyOfNormalText(nf, m.soldOut);
  }

  /** Texts with the same key and the same sold-out outcome get the same
      verdict. */
  lemma SameKeySameVerdict(m: Markers, nf: string -> string, t1: string, t2: string)
    requires SoldOutMatch(m, nf, t1) <==> SoldOutMatch(m, nf, t2)
    requires Key(nf, t1) == Key(nf, t2)
    ensures CheckStock(m, nf, Fetched(Some(t1))) == CheckStock(m, nf, Fetched(Some(t2)))
  {
  }

  /** When the sold-out marker is already in normal form (as the default
      "Sold Out" is), the raw-equality test adds nothing and the verdict on
      a located node depends only on its comparison key. */
  lemma VerdictDependsOnlyOnKey(m: Markers, nf: string -> string, t1: string, t2: string)
    requires nf(m.soldOut) == m.soldOut && Canonical(m.soldOut)
    requires Key(nf, t1) == Key(nf, t2)
    ensures CheckStock(m, nf, Fetched(Some(t1))) == CheckStock(m, nf, Fetched(Some(t2)))
  {
    SoldOutMatchByKey(m, nf, t1, t2);
    SameKeySameVerdict(m, nf, t1, t2);
  }

  /** Case and spacing are ignored: two texts whose lowercased NFKC forms
      have the same words classify alike under a normal-form sold-out
      marker. */
  lemma CaseAndSpacingIgnored(m: Markers, nf: string -> string, t1: string, t2: string)
    requires nf(m.soldOut) == m.soldOut && Canonical(m.soldOut)
    requires Words(Lower(nf(t1))) == Words(Lower(nf(t2)))
    ensures CheckStock(m, nf, Fetched(Some(t1))) == CheckStock(m, nf, Fetched(Some(t2)))
  {
    SameWordsSameKey(nf, t1, t2);
    VerdictDependsOnlyOnKey(m, nf, t1, t2);
  }

  /** Texts with the same lowercased words have the same key. */
  lemma SameWordsSameKey(nf: string -> string, t1: string, t2: string)
    requires Words(Lower(nf(t1))) == Words(Lower(nf(t2)))
    ensures Key(nf, t1) == Key(nf, t2)
  {
    KeyIsJoinedWords(nf, t1);
    KeyIsJoinedWords(nf, t2);
  }

  /** The comparison is equality, not a substring test: a located text that
      is already in normal form and longer than both markers is neither sold
      out nor in stock, whatever it contains. So "Add to Bag - Sold Out",
      which holds the sold-out marker, yields `Error`. */
  lemma LongerTextIsError(m: Markers, nf: string -> string, text: string)
    requires nf(text) == text && Canonical(text)
    requires |text| > |m.soldOut| && |text| > |m.inStock|
    ensures CheckStock(m, nf, Fetched(Some(text))) == Error
  {
    KeyOfNormalText(nf, text);
    CheckStockByKey(m, nf, text, Lower(text));
  }

  // ---------------------------------------------------------------------
  // Notification

  /** The three credentials, as read from the environment (absent or set). */
  datatype Credentials = Credentials(sender: Option<string>, password: Option<string>, recipient: Option<string>)

  /** Python truthiness of an environment value: set and non-empty. */
  predicate Present(v: Option<string>) {
    v.Some? && v.value != ""
  }

  predicate Complete(c: Credentials) {
    Present(c.sender) && Present(c.password) && Present(c.recipient)
  }

  /** One tracked product: its display name and page URL. */
  datatype Product = Product(name: string, url: string)

  /** The message handed to the mail transport, with its From and To. */
  datatype Envelope = Envelope(sender: string, recipient: string, message: Message)

  const SubjectPrefix := "In Stock Alert: "
  const BodyIntro := "The product you are tracking is now back in stock!\n\nProduct: "
  const BodyLink := "\nBuy it here: "

  /** `send_notification_email(product)`: nothing when a credential is
      missing or empty, otherwise the alert that is passed to SMTP (whose
      own failures are caught and logged). */
  function Notification(c: Credentials, p: Product): (e: Option<Envelope>)
    ensures e.Some? <==> Complete(c)
    ensures e.Some? ==> e.value.sender == c.sender.value && e.value.recipient == c.recipient.value
    ensures e.Some? ==>
      var subject := e.value.message.subject;
      |SubjectPrefix| <= |subject| && subject[..|SubjectPrefix|] == SubjectPrefix &&
      subject[|SubjectPrefix|..] == p.name
    ensures e.Some? ==>
      var body := e.value.message.body;
      Contains(body, p.name) && Contains(body, p.url) &&
      |p.url| <= |body| && body[|body| - |p.url|..] == p.url
  {
    if !Present(c.sender) || !Present(c.password) || !Present(c.recipient) then None
    else
      var body := BodyIntro + p.name + BodyLink + p.url;
      ContainsIff(body, p.name);
      assert OccursAt(body, p.name, |BodyIntro|);
      ContainsIff(body, p.url);
      assert OccursAt(body, p.url, |body| - |p.url|);
      Some(Envelope(c.sender.value, c.recipient.value, Message(SubjectPrefix + p.name, body)))
  }

  /** An alert names its product unambiguously: equal alerts come from equal
      products. */
  lemma NotificationIdentifiesProduct(c: Credentials, p: Product, q: Product)
    requires Complete(c)
    requires Notification(c, p) == Notification(c, q)
    ensures p == q
  {
    var b := Notification(c, p).value.message.body;
    var lp := |BodyIntro| + |p.name| + |BodyLink|;
    var lq := |BodyIntro| + |q.name| + |BodyLink|;
    assert |p.name| == |q.name|;
    assert b[lp..] == p.url;
    assert b[lq..] == q.url;
  }

  // ---------------------------------------------------------------------
  // The run over the product list

  /** `"In Stock" in status`: the condition under which the main loop sends
      an alert. It passes on the in-stock verdict and on no other. */
  predicate Gate(st: Status): (pass: bool)
    ensures pass <==> st == InStock
  {
    GateOnlyInStock(st);
    Contains(StatusText(st), "In Stock")
  }

  /** Of the four strings `check_stock` returns, only "In Stock" contains
      "In Stock". */
  lemma GateOnlyInStock(st: Status)
    ensures Contains(StatusText(st), "In Stock") <==> st == InStock
  {
    assert "In Stock" <= StatusText(InStock);
    ContainsKeepsChars(StatusText(st), "In Stock");
    assert 'I' in "In Stock";
  }

  /** What one product's check produced in a run. */
  datatype Record = Record(product: Product, status: Status, sent: Option<Envelope>)

  /** One iteration of the main loop: check the product's page, then send
      the alert when the gate passes. */
  function CheckProduct(m: Markers, nf: string -> string, c: Credentials, p: Product, probe: Probe): (r: Record)
    ensures r.product == p && r.status == CheckStock(m, nf, probe)
    ensures r.sent.Some? <==> r.status == InStock && Complete(c)
    ensures r.sent.Some? ==> r.sent == Notification(c, p)
  {
    var st := CheckStock(m, nf, probe);
    Record(p, st, if Gate(st) then Notification(c, p) else None)
  }

  /** The main block: one record per product, in list order. `probes[i]`
      is what the fresh request made for the `i`-th entry produced, so an
      entry listed twice may see two different pages. */
  function Run(m: Markers, nf: string -> string, c: Credentials, products: seq<Product>, probes: seq<Probe>): (rs: seq<Record>)
    requires |probes| == |products|
    ensures |rs| == |products|
    ensures forall i :: 0 <= i < |rs| ==> rs[i] == CheckProduct(m, nf, c, products[i], probes[i])
  {
    seq(|products|, i requires 0 <= i < |products| => CheckProduct(m, nf, c, products[i], probes[i]))
  }

  /** The alerts a run sent, in order. */
  function Outbox(rs: seq<Record>): seq<Envelope>
    decreases |rs|
  {
    if rs == [] then []
    else (if rs[0].sent.Some? then [rs[0].sent.value] else []) + Outbox(rs[1..])
  }

  /** The products whose page classified as in stock, in list order. */
  function InStockProducts(m: Markers, nf: string -> string, products: seq<Product>, probes: seq<Probe>): seq<Product>
    requires |probes| == |products|
    decreases |products|
  {
    if products == [] then []
    else
      (if CheckStock(m, nf, probes[0]) == InStock then [products[0]] else [])
      + InStockProducts(m, nf, products[1..], probes[1..])
  }

  /** The alerts for a list of products, in order (credentials complete). */
  function Alerts(c: Credentials, ps: seq<Product>): seq<Envelope>
    requires Complete(c)
    decreases |ps|
  {
    if ps == [] then [] else [Notification(c, ps[0]).value] + Alerts(c, ps[1..])
  }

  /** A run sends one alert per in-stock product, in list order, and none at
      all when a credential is missing. */
  lemma {:induction false} RunSendsExactlyInStockAlerts(m: Markers, nf: string -> string, c: Credentials, products: seq<Product>, probes: seq<Probe>)
    requires |probes| == |products|
    ensures !Complete(c) ==> Outbox(Run(m, nf, c, products, probes)) == []
    ensures Complete(c) ==>
      Outbox(Run(m, nf, c, products, probes)) == Alerts(c, InStockProducts(m, nf, products, probes))
    decreases |products|
  {
    if products != [] {
      var p := products[0];
      var r := CheckProduct(m, nf, c, p, probes[0]);
      var later := Run(m, nf, c, products[1..], probes[1..]);
      RunCons(m, nf, c, products, probes);
      OutboxCons(r, later);
      RunSendsExactlyInStockAlerts(m, nf, c, products[1..], probes[1..]);
      if Complete(c) && r.status == InStock {
        var rest := InStockProducts(m, nf, products[1..], probes[1..]);
        assert InStockProducts(m, nf, products, probes) == [p] + rest;
        AlertsCons(c, p, rest);
      } else {
        assert r.sent == None;
        assert Complete(c) ==> InStockProducts(m, nf, products, probes) == InStockProducts(m, nf, products[1..], probes[1..]);
      }
    }
  }

  /** A run is its first entry's record followed by the run over the rest. */
  lemma RunCons(m: Markers, nf: string -> string, c: Credentials, products: seq<Product>, probes: seq<Probe>)
    requires |probes| == |products| > 0
    ensures Run(m, nf, c, products, probes) ==
      [CheckProduct(m, nf, c, products[0], probes[0])] + Run(m, nf, c, products[1..], probes[1..])
  {
    var rs := Run(m, nf, c, products, probes);
    var later := Run(m, nf, c, products[1..], probes[1..]);
    forall i | 1 <= i < |rs|
      ensures rs[i] == later[i - 1]
    {
      assert products[1..][i - 1] == products[i] && probes[1..][i - 1] == probes[i];
    }
    HeadAndShift(rs, later);
  }

  /** A sequence whose elements after the first are those of `b`, shifted by
      one, is its first element followed by `b`. */
  lemma HeadAndShift<T>(a: seq<T>, b: seq<T>)
    requires |a| == |b| + 1
    requires forall i :: 1 <= i < |a| ==> a[i] == b[i - 1]
    ensures a == [a[0]] + b
  {
  }

  lemma OutboxCons(r: Record, rs: seq<Record>)
    ensures Outbox([r] + rs) == (if r.sent.Some? then [r.sent.value] else []) + Outbox(rs)
  {
    assert ([r] + rs)[1..] == rs;
  }

  lemma AlertsCons(c: Credentials, p: Product, ps: seq<Product>)
    requires Complete(c)
    ensures Alerts(c, [p] + ps) == [Notification(c, p).value] + Alerts(c, ps)
  {
    assert ([p] + ps)[1..] == ps;
  }

  /** One entry's failure does not disturb the others: the `i`-th record
      depends only on the `i`-th entry and what its own request produced,
      even when the same product is listed elsewhere too. */
  lemma RunIsolatesProducts(m: Markers, nf: string -> string, c: Credentials, products: seq<Product>, probes1: seq<Probe>, probes2: seq<Probe>, i: int)
    requires |probes1| == |products| && |probes2| == |products|
    requires 0 <= i < |products|
    requires probes1[i] == probes2[i]
    ensures Run(m, nf, c, products, probes1)[i] == Run(m, nf, c, products, probes2)[i]
  {
  }
}
