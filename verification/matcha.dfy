/** The single-product tracker (matcha_tracker.py): a case-sensitive
    substring test on the buy button's text, a fixed alert e-mail, and a loop
    that re-checks until the first in-stock result, notifies once and stops. */
module Matcha {
  import opened Text
  import opened Scrape

  /** The marker looked for in the button text. */
  const SoldOutMarker := "Sold Out"

  const AlertSubject := "Product In Stock Alert!"
  const AlertIntro := "The product you are tracking is now back in stock!\n\nBuy it here: "

  /** True when the page was fetched, the button was found and its text has
      no occurrence of the marker. Exceptions, a missing button and a
      sold-out text all read as "not in stock". */
  function CheckStock(probe: Probe): (inStock: bool)
    ensures inStock <==>
      && probe.Fetched? && probe.node.Some?
      && forall i :: !OccursAt(probe.node.value, SoldOutMarker, i)
  {
    ContainsIff(if probe.Fetched? && probe.node.Some? then probe.node.value else "", SoldOutMarker);
    match probe
    case Raised(_) => false
    case Fetched(None) => false
    case Fetched(Some(text)) => !Contains(text, SoldOutMarker)
  }

  /** A button whose text holds the marker anywhere means sold out. */
  lemma SoldOutTextIsOutOfStock(text: string, i: int)
    requires OccursAt(text, SoldOutMarker, i)
    ensures !CheckStock(Fetched(Some(text)))
  {
  }

  /** The test is case-sensitive: a lowercase label does not count as sold
      out. */
  lemma LowercaseLabelIsInStock()
    ensures CheckStock(Fetched(Some("sold out")))
  {
    assert SoldOutMarker[0] == 'S';
    ContainsKeepsChars("sold out", SoldOutMarker);
  }

  /** Nor does an uppercase one. */
  lemma UppercaseLabelIsInStock()
    ensures CheckStock(Fetched(Some("SOLD OUT")))
  {
    assert SoldOutMarker[1] == 'o';
    ContainsKeepsChars("SOLD OUT", SoldOutMarker);
  }

  /** A found button with empty text counts as in stock. */
  lemma EmptyButtonIsInStock()
    ensures CheckStock(Fetched(Some("")))
  {
    ContainsKeepsChars("", SoldOutMarker);
    assert 'S' in SoldOutMarker;
  }

  /** The alert e-mail for the product page at `url`. */
  function Alert(url: string): (m: Message)
    ensures m.subject == AlertSubject
    ensures |url| <= |m.body| && m.body[|m.body| - |url|..] == url
    ensures Contains(m.body, url)
  {
    var body := AlertIntro + url;
    ContainsIff(body, url);
    assert OccursAt(body, url, |AlertIntro|);
    Message(AlertSubject, body)
  }

  /** The page URL can be read back from the end of the alert body. */
  lemma AlertUrlRoundTrip(url: string)
    ensures Alert(url).body[|AlertIntro|..] == url
  {
  }

  /** One iteration of the main loop: sleep after a negative check, or send
      the alert (whatever the transport then does). */
  datatype Step = Slept | Notified(message: Message)

  /** The main loop run against successive check outcomes `probes`: each
      negative check is followed by a sleep, and the first positive one by
      the alert, after which the loop ends. The infinite loop is cut at the
      end of `probes`. */
  function Track(url: string, probes: seq<Probe>): (trace: seq<Step>)
    ensures |trace| <= |probes|
    ensures forall i :: 0 <= i < |trace| ==> (trace[i] == Slept <==> !CheckStock(probes[i]))
    ensures forall i :: 0 <= i < |trace| - 1 ==> trace[i] == Slept
    ensures forall i :: 0 <= i < |trace| ==> trace[i].Notified? ==> trace[i].message == Alert(url)
    decreases |probes|
  {
    if probes == [] then []
    else if CheckStock(probes[0]) then [Notified(Alert(url))]
    else [Slept] + Track(url, probes[1..])
  }

  /** Index of the first positive check, or `|probes|` when there is none. */
  function FirstInStock(probes: seq<Probe>): (k: nat)
    ensures k <= |probes|
    ensures forall i :: 0 <= i < k ==> !CheckStock(probes[i])
    ensures k < |probes| ==> CheckStock(probes[k])
    decreases |probes|
  {
    if probes == [] then 0
    else if CheckStock(probes[0]) then 0
    else 1 + FirstInStock(probes[1..])
  }

  /** The loop performs exactly the checks up to and including the first
      positive one; it notifies exactly when some check is positive, and
      otherwise keeps re-checking through every outcome. */
  lemma {:induction false} TrackStopsAtFirstInStock(url: string, probes: seq<Probe>)
    ensures var k := FirstInStock(probes);
      && (k < |probes| ==> |Track(url, probes)| == k + 1 && Track(url, probes)[k] == Notified(Alert(url)))
      && (k == |probes| ==> |Track(url, probes)| == |probes| && forall i :: 0 <= i < |probes| ==> Track(url, probes)[i] == Slept)
    decreases |probes|
  {
    if probes != [] && !CheckStock(probes[0]) {
      TrackStopsAtFirstInStock(url, probes[1..]);
    }
  }
}
