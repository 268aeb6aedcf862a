/** Field extraction from one listing card (`_select_text`, `_select_list_text`,
    `parse_practice_card`, `parse_practices` in scrape_ce.py).

    The HTML parser is not modelled: a card arrives as the already-stripped texts
    its selectors matched. */
module Extract {
  import opened Wrappers
  import opened Text
  import opened Practice

  /** Prefixed to site-relative links. */
  const BaseDomain: string := "https://circulareconomy.europa.eu"

  /** The first `<a>` inside a card's `<h2>`; `href` is None when it has no such attribute. */
  datatype Anchor = Anchor(href: Option<string>)

  /** A card's `<h2>`: its stripped text and its first anchor, if it has one. */
  datatype Heading = Heading(text: string, anchor: Option<Anchor>)

  /** One listing card. A scalar field is the stripped text of the first element
      its selector matched (None when nothing matched); a multi-valued field is the
      stripped texts of every match, in document order. */
  datatype Card = Card(
    heading: Option<Heading>,
    description: Option<string>,
    organisation: Option<string>,
    typeOfOrganisation: Option<string>,
    country: Option<string>,
    language: Option<string>,
    keyArea: seq<string>,
    sector: seq<string>,
    scope: seq<string>)

  /** Reading `["href"]` off the heading's anchor raises unless the attribute is there. */
  predicate HrefPresent(c: Card) {
    c.heading.Some? && c.heading.value.anchor.Some? ==> c.heading.value.anchor.value.href.Some?
  }

  predicate AllHrefsPresent(cards: seq<Card>) {
    forall i :: 0 <= i < |cards| ==> HrefPresent(cards[i])
  }

  /** `_select_text`: the matched text, or the sentinel when nothing matched or the text is empty. */
  function SelectText(first: Option<string>): (r: string)
    ensures r != ""
    ensures r == Sentinel || first == Some(r)
    ensures first.Some? && first.value != "" ==> r == first.value
    ensures first.None? ==> r == Sentinel
  {
    match first
    case None => Sentinel
    case Some(text) => if text == "" then Sentinel else text
  }

  /** The non-empty texts of `items`, in their original order. */
  function KeepNonEmpty(items: seq<string>): (kept: seq<string>)
    ensures forall i :: 0 <= i < |kept| ==> kept[i] != ""
    ensures forall i :: 0 <= i < |kept| ==> kept[i] in items
    ensures |kept| == 0 <==> forall i :: 0 <= i < |items| ==> items[i] == ""
  {
    if |items| == 0 then []
    else (if items[0] == "" then [] else [items[0]]) + KeepNonEmpty(items[1..])
  }

  /** Every text survives the filter exactly as often as it is non-empty in the input. */
  lemma {:induction false} KeepNonEmptyCounts(items: seq<string>, x: string)
    ensures multiset(KeepNonEmpty(items))[x] == (if x == "" then 0 else multiset(items)[x])
    decreases |items|
  {
    if |items| > 0 {
      var head := if items[0] == "" then [] else [items[0]];
      KeepNonEmptyCounts(items[1..], x);
      assert KeepNonEmpty(items) == head + KeepNonEmpty(items[1..]);
      assert multiset(KeepNonEmpty(items)) == multiset(head) + multiset(KeepNonEmpty(items[1..]));
      assert items == [items[0]] + items[1..];
      assert multiset(items) == multiset([items[0]]) + multiset(items[1..]);
    }
  }

  lemma {:induction false} JoinNonEmpty(items: seq<string>)
    requires |items| >= 1 && items[0] != ""
    ensures Join(ListSeparator, items) != ""
  {
    if |items| > 1 {
      assert |Join(ListSeparator, items)| >= |items[0]|;
    }
  }

  /** When no item holds a comma, the joined kept items split back into the kept items. */
  lemma SplitKept(items: seq<string>)
    ensures (forall i :: 0 <= i < |items| ==> CommaFree(items[i])) && KeepNonEmpty(items) != [] ==>
              SplitList(Join(ListSeparator, KeepNonEmpty(items))) == KeepNonEmpty(items)
  {
    var values := KeepNonEmpty(items);
    if (forall i :: 0 <= i < |items| ==> CommaFree(items[i])) && values != [] {
      forall j | 0 <= j < |values| ensures CommaFree(values[j]) {
        var k :| 0 <= k < |items| && items[k] == values[j];
      }
      SplitJoin(values);
    }
  }

  /** Filtering a concatenation filters each part in place, so the kept texts stay
      in document order; a single item is kept iff it is non-empty. */
  lemma {:induction false} KeepNonEmptyAppend(a: seq<string>, b: seq<string>)
    ensures KeepNonEmpty(a + b) == KeepNonEmpty(a) + KeepNonEmpty(b)
    ensures |a| == 1 ==> KeepNonEmpty(a) == (if a[0] == "" then [] else a)
    decreases |a|
  {
    if |a| == 0 {
      assert a + b == b;
    } else {
      var head := if a[0] == "" then [] else [a[0]];
      var ab := a + b;
      var rest := a[1..];
      assert ab[0] == a[0];
      assert ab[1..] == rest + b;
      KeepNonEmptyAppend(rest, b);
      calc {
        KeepNonEmpty(ab);
        head + KeepNonEmpty(rest + b);
        head + (KeepNonEmpty(rest) + KeepNonEmpty(b));
        (head + KeepNonEmpty(rest)) + KeepNonEmpty(b);
        KeepNonEmpty(a) + KeepNonEmpty(b);
      }
      if |a| == 1 {
        assert rest == [];
        assert KeepNonEmpty(a) == head + KeepNonEmpty(rest);
      }
    }
  }

  /** `_select_list_text`: the non-empty texts joined with ", ", or the sentinel when none remain. */
  function SelectListText(items: seq<string>): (r: string)
    ensures r != ""
    ensures (forall i :: 0 <= i < |items| ==> items[i] == "") ==> r == Sentinel
    ensures KeepNonEmpty(items) != [] ==> r == Join(ListSeparator, KeepNonEmpty(items))
    ensures (forall i :: 0 <= i < |items| ==> CommaFree(items[i])) && KeepNonEmpty(items) != [] ==>
              SplitList(r) == KeepNonEmpty(items)
  {
    var values := KeepNonEmpty(items);
    if |values| == 0 then Sentinel
    else
      JoinNonEmpty(values);
      SplitKept(items);
      Join(ListSeparator, values)
  }

  /** The `link` value: the heading anchor's href, or "" when there is no heading or anchor. */
  function RawHref(heading: Option<Heading>): string
    requires heading.Some? && heading.value.anchor.Some? ==> heading.value.anchor.value.href.Some?
  {
    if heading.Some? && heading.value.anchor.Some? then heading.value.anchor.value.href.value else ""
  }

  /** The title: the heading text when there is a heading (even if empty), else the sentinel. */
  function TitleText(heading: Option<Heading>): string {
    if heading.Some? then heading.value.text else Sentinel
  }

  /** The `full_link` value: site-relative links gain the base domain, an empty
      or missing link becomes the sentinel, anything else is kept. */
  function ResolveLink(heading: Option<Heading>): (r: string)
    requires heading.Some? && heading.value.anchor.Some? ==> heading.value.anchor.value.href.Some?
    ensures r != ""
    ensures heading.None? || heading.value.anchor.None? ==> r == Sentinel
    ensures RawHref(heading) == "" ==> r == Sentinel
    ensures StartsWith(RawHref(heading), "/") ==> r == BaseDomain + RawHref(heading)
    ensures RawHref(heading) != "" && !StartsWith(RawHref(heading), "/") ==> r == RawHref(heading)
  {
    var link := RawHref(heading);
    if |link| > 0 && link[0] == '/' then BaseDomain + link
    else if link == "" then Sentinel
    else link
  }

  /** A record is populated when every column except the title is non-empty
      (an empty `<h2>` still gives an empty title). */
  predicate Populated(r: GoodPractice) {
    && r.description != "" && r.link != "" && r.organisation != ""
    && r.typeOfOrganisation != "" && r.country != "" && r.language != ""
    && r.keyArea != "" && r.sector != "" && r.scope != ""
  }

  /** A single-valued cell holds its element's text when that text is non-empty,
      and the sentinel when the element is missing or empty. */
  predicate ScalarCell(first: Option<string>, cell: string) {
    && (first.Some? && first.value != "" ==> cell == first.value)
    && (first.None? || first.value == "" ==> cell == Sentinel)
  }

  /** A multi-valued cell is the sentinel when no element has text; otherwise it
      is the non-empty texts joined with ", " in document order, which, when no
      element holds a comma, splits back into those texts. */
  predicate ListCell(items: seq<string>, cell: string) {
    && ((forall i :: 0 <= i < |items| ==> items[i] == "") ==> cell == Sentinel)
    && (KeepNonEmpty(items) != [] ==> cell == Join(ListSeparator, KeepNonEmpty(items)))
    && ((forall i :: 0 <= i < |items| ==> CommaFree(items[i])) && KeepNonEmpty(items) != [] ==>
          SplitList(cell) == KeepNonEmpty(items))
  }

  /** `parse_practice_card`: each column from its own part of the card. */
  function ParseCard(c: Card): (r: GoodPractice)
    requires HrefPresent(c)
    ensures Populated(r)
    ensures r.title == "" <==> c.heading.Some? && c.heading.value.text == ""
    ensures c.heading.Some? ==> r.title == c.heading.value.text
    ensures c.heading.None? ==> r.title == Sentinel && r.link == Sentinel
    ensures RawHref(c.heading) == "" ==> r.link == Sentinel
    ensures StartsWith(RawHref(c.heading), "/") ==> r.link == BaseDomain + RawHref(c.heading)
    ensures RawHref(c.heading) != "" && !StartsWith(RawHref(c.heading), "/") ==> r.link == RawHref(c.heading)
    ensures ScalarCell(c.description, r.description)
    ensures ScalarCell(c.organisation, r.organisation)
    ensures ScalarCell(c.typeOfOrganisation, r.typeOfOrganisation)
    ensures ScalarCell(c.country, r.country)
    ensures ScalarCell(c.language, r.language)
    ensures ListCell(c.keyArea, r.keyArea)
    ensures ListCell(c.sector, r.sector)
    ensures ListCell(c.scope, r.scope)
  {
    GoodPractice(
      TitleText(c.heading),
      SelectText(c.description),
      ResolveLink(c.heading),
      SelectText(c.organisation),
      SelectText(c.typeOfOrganisation),
      SelectText(c.country),
      SelectText(c.language),
      SelectListText(c.keyArea),
      SelectListText(c.sector),
      SelectListText(c.scope))
  }

  /** The card with the markup behind column `col` removed. Title and link both
      come from the `<h2>`, so removing either removes the heading. */
  function Without(c: Card, col: Column): Card {
    match col
    case Title => c.(heading := None)
    case Link => c.(heading := None)
    case Description => c.(description := None)
    case Organisation => c.(organisation := None)
    case TypeOfOrganisation => c.(typeOfOrganisation := None)
    case Country => c.(country := None)
    case Language => c.(language := None)
    case KeyArea => c.(keyArea := [])
    case Sector => c.(sector := [])
    case Scope => c.(scope := [])
  }

  predicate FromHeading(col: Column) {
    col == Title || col == Link
  }

  /** The record with the column(s) fed by the markup behind `col` set to the sentinel. */
  function Blanked(r: GoodPractice, col: Column): GoodPractice {
    match col
    case Title => r.(title := Sentinel, link := Sentinel)
    case Link => r.(title := Sentinel, link := Sentinel)
    case Description => r.(description := Sentinel)
    case Organisation => r.(organisation := Sentinel)
    case TypeOfOrganisation => r.(typeOfOrganisation := Sentinel)
    case Country => r.(country := Sentinel)
    case Language => r.(language := Sentinel)
    case KeyArea => r.(keyArea := Sentinel)
    case Sector => r.(sector := Sentinel)
    case Scope => r.(scope := Sentinel)
  }

  lemma ParseWithout(c: Card, col: Column)
    requires HrefPresent(c)
    ensures HrefPresent(Without(c, col))
    ensures ParseCard(Without(c, col)) == Blanked(ParseCard(c), col)
  {
    match col
    case Title =>
    case Link =>
    case Description =>
    case Organisation =>
    case TypeOfOrganisation =>
    case Country =>
    case Language =>
    case KeyArea =>
    case Sector =>
    case Scope =>
  }

  lemma FieldOfBlanked(r: GoodPractice, col: Column, other: Column)
    ensures Field(Blanked(r, col), other) ==
              if other == col || (FromHeading(other) && FromHeading(col)) then Sentinel else Field(r, other)
  {
  }

  /** A missing field turns only its own column into the sentinel; every column
      drawn from other markup is extracted as before. */
  lemma MissingFieldIsSentinel(c: Card, col: Column)
    requires HrefPresent(c)
    ensures HrefPresent(Without(c, col))
    ensures Field(ParseCard(Without(c, col)), col) == Sentinel
    ensures forall other :: other != col && !(FromHeading(other) && FromHeading(col)) ==>
              Field(ParseCard(Without(c, col)), other) == Field(ParseCard(c), other)
  {
    ParseWithout(c, col);
    FieldOfBlanked(ParseCard(c), col, col);
    forall other | other != col && !(FromHeading(other) && FromHeading(col))
      ensures Field(ParseCard(Without(c, col)), other) == Field(ParseCard(c), other)
    {
      FieldOfBlanked(ParseCard(c), col, other);
    }
  }

  /** `parse_practices`: one record per card, in card order. */
  function ParsePractices(cards: seq<Card>): (rs: seq<GoodPractice>)
    requires AllHrefsPresent(cards)
    ensures |rs| == |cards|
    ensures forall i :: 0 <= i < |cards| ==> rs[i] == ParseCard(cards[i])
  {
    if |cards| == 0 then []
    else [ParseCard(cards[0])] + ParsePractices(cards[1..])
  }

  /** Parsing two runs of cards one after the other is parsing their concatenation. */
  lemma ParsePracticesAppend(a: seq<Card>, b: seq<Card>)
    requires AllHrefsPresent(a) && AllHrefsPresent(b)
    ensures AllHrefsPresent(a + b)
    ensures ParsePractices(a + b) == ParsePractices(a) + ParsePractices(b)
  {
    assert forall i :: 0 <= i < |a + b| ==> HrefPresent((a + b)[i]) by {
      forall i | 0 <= i < |a + b| ensures HrefPresent((a + b)[i]) {
        if i < |a| { assert (a + b)[i] == a[i]; } else { assert (a + b)[i] == b[i - |a|]; }
      }
    }
  }

  // The two cards of the scraper's unit tests.

  const FullCard: Card := Card(
    Some(Heading("Circular Cities", Some(Anchor(Some("/platform/en/good-practices/example-entry"))))),
    Some("Innovative reuse of construction materials."),
    Some("Circular Org"),
    Some("SME"),
    Some("Belgium"),
    Some("English"),
    ["Waste", "Recycling"],
    ["Construction"],
    ["National", "Local"])

  const MinimalCard: Card := Card(
    Some(Heading("Untitled entry", None)), None, None, None, None, None, [], [], [])

  lemma FullCardFields()
    ensures ParsePractices([FullCard]) == [ParseCard(FullCard)]
    ensures ParseCard(FullCard).title == "Circular Cities"
    ensures ParseCard(FullCard).organisation == "Circular Org"
    ensures ParseCard(FullCard).typeOfOrganisation == "SME"
    ensures ParseCard(FullCard).country == "Belgium"
    ensures ParseCard(FullCard).language == "English"
  {
  }

  /** The two key areas of the full test card flatten to one comma-joined cell. */
  lemma FullCardKeyArea()
    ensures SelectListText(["Waste", "Recycling"]) == "Waste, Recycling"
    ensures ParseCard(FullCard).keyArea == "Waste, Recycling"
  {
    var items := ["Waste", "Recycling"];
    assert KeepNonEmpty(items[1..][1..]) == [];
    assert KeepNonEmpty(items[1..]) == ["Recycling"];
    assert KeepNonEmpty(items) == items;
  }

  /** The full test card's site-relative link is resolved against the base domain. */
  lemma FullCardLink()
    ensures ParseCard(FullCard).link == BaseDomain + "/platform/en/good-practices/example-entry"
    ensures EndsWith(ParseCard(FullCard).link, "/platform/en/good-practices/example-entry")
  {
    var href := "/platform/en/good-practices/example-entry";
    assert RawHref(FullCard.heading) == href;
    assert href[0] == '/';
    assert StartsWith(href, "/") by { assert href[..1] == "/"; }
    var link := BaseDomain + href;
    assert link[|link| - |href|..] == href;
  }

  lemma MinimalCardFields()
    ensures |ParsePractices([MinimalCard])| == 1
    ensures ParseCard(MinimalCard).title == "Untitled entry"
    ensures ParseCard(MinimalCard).organisation == Sentinel
    ensures ParseCard(MinimalCard).scope == Sentinel
    ensures ParseCard(MinimalCard).link == Sentinel
  {
  }
}
