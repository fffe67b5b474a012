# Matcha stock trackers — a verified Dafny model

The repository holds two scraping scripts that poll tea-shop product pages
and e-mail an alert when an item is back in stock. This project models
their decision logic:

- `matcha_tracker.py`: the buy button's text is searched for the substring
  `"Sold Out"`, case-sensitively. A page error, a missing button or a
  sold-out text means "not in stock". The alert has a fixed subject and a
  body ending with the product URL. The main loop re-checks until the first
  positive check, sends one alert and stops.
- `ippodo_tea.py`: `norm_text` applies NFKC, strips, and collapses
  whitespace runs to one ASCII space. `check_stock` returns one of four
  strings. It returns `"Out of Stock"` when the raw node text equals the
  sold-out marker or the lowercased normalised text equals the lowercased
  marker. It returns `"In Stock"` when the lowercased normalised text
  equals the lowercased in-stock marker, and `"Error"` otherwise. A missing
  node gives `"Out Of Stock"` (capital O) and any exception gives
  `"Error"`. `send_notification_email` sends nothing unless all three
  credentials are set and non-empty. The main block checks each product
  in list order and sends an alert when `"In Stock"` occurs in the status.

Files:

- `text.dfy` (`Text`): Python's whitespace class, ASCII `lower()`, and the
  substring operator `in`.
- `normalize.dfy` (`Normalize`): `norm_text`, with NFKC as a parameter
  `nf`. Its reference definition is Python's `" ".join(s.split())`.
- `scrape.dfy` (`Scrape`): the outcome of fetch-and-find (`Probe`) and the
  mail message.
- `matcha.dfy` (`Matcha`): the single-product tracker.
- `ippodo.dfy` (`Ippodo`): the multi-product tracker.

In `check_stock` the node text is compared with the markers by equality,
not by substring. The sold-out marker is lowercased but not normalised,
and a missing node hard-codes `"Out Of Stock"`. `LongerTextIsError` shows
one consequence: a text such as "Add to Bag - Sold Out" classifies as
`"Error"`, not as sold out.

## Model

| member | source | states |
|---|---|---|
| Text.IsSpaceExactly | ippodo_tea.py:46 | the whitespace class used by `str.strip()` and `\s` is exactly the 29 code points of Python's `str.isspace()`, listed one by one |
| Text.Lower | ippodo_tea.py:86-88 | `.lower()` keeps the length and lowercases each character independently (ASCII letters only) |
| Text.ContainsIff | matcha_tracker.py:67 | `sub in s` holds exactly when `sub` occurs at some index of `s`, in both directions |
| Matcha.CheckStock | matcha_tracker.py:61-80 | the result is true exactly when the page was fetched, the button was found, and "Sold Out" occurs at no index of its text; errors and a missing button give false |
| Matcha.SoldOutTextIsOutOfStock | matcha_tracker.py:63-68 | a button text with "Sold Out" at any position is not in stock |
| Matcha.LowercaseLabelIsInStock | matcha_tracker.py:67-70 | "sold out" counts as in stock, because the test is case-sensitive |
| Matcha.UppercaseLabelIsInStock | matcha_tracker.py:67-70 | "SOLD OUT" counts as in stock too |
| Matcha.EmptyButtonIsInStock | matcha_tracker.py:63-70 | a found button with empty text counts as in stock |
| Matcha.Alert | matcha_tracker.py:90-91 | the subject is "Product In Stock Alert!" and the body contains the product URL and ends with it |
| Matcha.AlertUrlRoundTrip | matcha_tracker.py:91 | the URL is recovered from the body by dropping the fixed introduction |
| Matcha.Track | matcha_tracker.py:126-136 | one step per check; a step is a sleep exactly when its check was negative; only the last step may be the alert, and the alert carries the product URL's message |
| Matcha.TrackStopsAtFirstInStock | matcha_tracker.py:126-136 | the loop ends with the alert right after the first positive check; when no check is positive it sleeps after every one of them |
| Normalize.Strip | ippodo_tea.py:46 | `str.strip()` leaves no whitespace at either end |
| Normalize.Collapse | ippodo_tea.py:46 | after `re.sub(r"\s+", " ", s)` every whitespace is U+0020 and no two are adjacent; the result is empty, and starts and ends with whitespace, exactly when the input does |
| Normalize.NormText | ippodo_tea.py:43-47 | `norm_text` yields a string with no whitespace at either end, only single U+0020 spaces inside, whatever the NFKC step does |
| Normalize.SquashFixesCanonical | ippodo_tea.py:46 | a string already of that shape is left unchanged by strip-and-collapse |
| Normalize.SquashIdempotent | ippodo_tea.py:46 | strip-and-collapse applied twice equals applied once |
| Normalize.NormTextIdempotent | ippodo_tea.py:43-47 | `norm_text(norm_text(s)) == norm_text(s)` when the NFKC stand-in obeys the laws NFKC obeys |
| Normalize.SquashIsJoinOfWords | ippodo_tea.py:46 | strip-and-collapse equals Python's `" ".join(s.split())` |
| Normalize.SquashEqualIffSameWords | ippodo_tea.py:46 | two texts normalise alike exactly when they have the same whitespace-separated words |
| Normalize.NormTextKeepsNonSpace | ippodo_tea.py:44-47 | `norm_text` keeps every non-whitespace character of the NFKC form, in order and in its case: it does not lowercase, whatever its comment says |
| Normalize.LowerSquash | ippodo_tea.py:86-88 | lowercasing before or after whitespace normalisation gives the same string |
| Ippodo.StatusTextInjective | ippodo_tea.py:87-104 | the four returned strings are pairwise distinct |
| Ippodo.Key | ippodo_tea.py:86-88 | `norm_text(text).lower()` has the normalised shape |
| Ippodo.KeyIsJoinedWords | ippodo_tea.py:86-88 | `norm_text(text).lower()` equals `" ".join(nf(text).lower().split())` |
| Ippodo.SoldOutMatchByWords | ippodo_tea.py:86 | the sold-out test holds exactly when the raw text equals the marker or the lowercased marker equals `" ".join(nf(text).lower().split())` |
| Ippodo.CheckStock | ippodo_tea.py:72-104 | a missing node, and nothing else, gives "Out Of Stock"; "Out of Stock" exactly on a sold-out match; "In Stock" exactly when there is no sold-out match and the key equals the lowercased in-stock marker; "Error" exactly on an exception or a located node matching neither |
| Ippodo.CheckStockByWords | ippodo_tea.py:85-91 | the three verdicts on a located node, against the reference key `" ".join(nf(text).lower().split())` |
| Ippodo.DefaultSoldOutLabel | ippodo_tea.py:86-87 | with the default markers ("Add to bag", "Sold Out"), a node whose key is "sold out" is "Out of Stock" |
| Ippodo.DefaultInStockLabel | ippodo_tea.py:86-89 | with the default markers, a node whose key is "add to bag" is "In Stock", unless its raw text is exactly "Sold Out" |
| Ippodo.InStockLabel | ippodo_tea.py:86-89 | with markers whose lowercase forms differ, a node keyed as the in-stock marker is "In Stock" unless its raw text is exactly the sold-out marker |
| Ippodo.SoldOutPrecedence | ippodo_tea.py:86-89 | a text matching both markers is "Out of Stock", never "In Stock" |
| Ippodo.KeyOfNormalText | ippodo_tea.py:86 | a text already in normal form has its own lowercase as key |
| Ippodo.VerdictDependsOnlyOnKey | ippodo_tea.py:85-91 | with a sold-out marker in normal form, texts with equal keys get equal verdicts |
| Ippodo.CaseAndSpacingIgnored | ippodo_tea.py:85-91 | with a sold-out marker in normal form, texts whose lowercased NFKC forms have the same words get equal verdicts |
| Ippodo.SameWordsSameKey | ippodo_tea.py:86-88 | texts with the same lowercased words have the same key |
| Ippodo.LongerTextIsError | ippodo_tea.py:85-91 | the test is equality, not substring: a normal-form text longer than both markers gives "Error", whatever it contains (so also when it contains the sold-out marker) |
| Ippodo.Notification | ippodo_tea.py:107-122 | nothing is sent unless sender, password and recipient are all set and non-empty; otherwise From and To are the credentials, the subject is "In Stock Alert: " followed by the name, and the body contains the name and contains the URL and ends with it |
| Ippodo.NotificationIdentifiesProduct | ippodo_tea.py:114-117 | equal alerts come from equal products |
| Ippodo.Gate | ippodo_tea.py:146 | the alert gate `"In Stock" in status` passes exactly on the in-stock verdict |
| Ippodo.GateOnlyInStock | ippodo_tea.py:87-104 | of the four strings `check_stock` returns, only "In Stock" contains "In Stock" |
| Ippodo.CheckProduct | ippodo_tea.py:136-147 | one iteration records the product and its verdict, and an alert is sent exactly when the verdict is "In Stock" and the credentials are complete |
| Ippodo.Run | ippodo_tea.py:136-147 | one record per list entry, in list order, each from the outcome of that entry's own request, so a product listed twice may see two different pages |
| Ippodo.RunSendsExactlyInStockAlerts | ippodo_tea.py:107-147 | the alerts sent are those of the in-stock products, in list order, and none at all when a credential is missing |
| Ippodo.RunIsolatesProducts | ippodo_tea.py:136-138 | an entry's record depends only on that entry and its own request's outcome, so one failing request leaves every other entry alone, even an entry for the same product |

## Left out

- HTTP fetching (`requests.get`, `raise_for_status`) and BeautifulSoup parsing are not modelled. Their outcome is a `Probe`: an exception raised, or the located node's text (`None` when no node matched). The tag and class looked up are part of producing that outcome.
- `get_text(strip=True)` and `.text` are library behaviour. The probe carries their output as given.
- SMTP transport and `MIMEText` encoding are not modelled. Both scripts catch and log every transport exception, so a failed send changes nothing the caller sees. The model stops at the composed message and its envelope.
- The sender and recipient headers of the single-product tracker's alert (matcha_tracker.py:95-96) are not modelled, because that script performs no credential check to state.
- `time.sleep` and the unbounded `while True` are cut at a finite sequence of check outcomes (`Matcha.Track`).
- Logging, `load_dotenv` and the `os.environ` lookups are not modelled. Markers, credentials and the product list (ippodo_tea.py:50-59) are parameters; the marker defaults are constants.
- The placeholder-credential check at matcha_tracker.py:122 is configuration handling and is not modelled.
- The commented-out block at ippodo_tea.py:61-70 is not code.
- NFKC (Unicode UAX #15) is the parameter `nf`. Python's full Unicode `lower()` is reduced to ASCII letters. Python's whitespace class is modelled exactly (the `str.isspace()` set).
- Normalize.NormTextIdempotent: holds only for an `nf` that is idempotent and keeps its fixed points fixed under whitespace trimming and collapsing, as NFKC does; the real tables are not modelled.
- Ippodo.VerdictDependsOnlyOnKey: stated only for a sold-out marker already in normal form (such as the default "Sold Out"). For other markers the raw-equality test can matter.
