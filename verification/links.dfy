/**
 The link catalog: a fixed map from category key to a Persian search term,
 and the search links into the food-delivery website built from it. The city
 hint is accepted by both builders and has no effect on their output.
 */
module LinkCatalog {
  import opened Wrappers
  import FormEncoding
  import Utf8

  /** The public website every link points into. */
  const BaseWeb: string := "https://snappfood.ir"

  /** Path and parameter name of the website's search page. */
  const SearchPath: string := "/search?query="

  /** Category key to search term. */
  const CategoryQueries: map<string, string> := map[
    "pizza" := "پیتزا",
    "kebab" := "کباب",
    "burger" := "برگر",
    "sandwich" := "ساندویچ",
    "irani" := "ایرانی"
  ]

  /** The search term for a key, or the empty term for a key outside the catalog. */
  function QueryFor(key: string): (q: string)
    ensures key in CategoryQueries ==> q == CategoryQueries[key]
    ensures key !in CategoryQueries ==> q == ""
    ensures q == "" <==> key !in CategoryQueries
  {
    if key in CategoryQueries then CategoryQueries[key] else ""
  }

  /** Where the encoded query starts inside every link. */
  const LinkPrefix: string := BaseWeb + SearchPath

  /** The query component of a link: everything after the search path. */
  function QueryComponent(url: string): (query: string)
    requires |LinkPrefix| <= |url|
  {
    url[|LinkPrefix|..]
  }

  /**
   The search link for a category. The link starts with the website's base
   and the search path, and its query component decodes back to exactly the
   catalog's term for the key (the empty term for an unknown key).
   */
  function BuildLink(key: string, city: Option<string>): (url: string)
    ensures LinkPrefix <= url
    ensures BaseWeb <= url
    ensures FormEncoding.Unquote(QueryComponent(url)).Some?
    ensures Utf8.Decode(FormEncoding.Unquote(QueryComponent(url)).value) == Some(QueryFor(key))
    ensures FormEncoding.Canonical(QueryComponent(url))
  {
    var url := LinkPrefix + FormEncoding.QuotePlus(QueryFor(key));
    assert QueryComponent(url) == FormEncoding.QuotePlus(QueryFor(key));
    FormEncoding.QuotePlusRoundTrip(QueryFor(key));
    FormEncoding.QuoteBytesCanonical(Utf8.Encode(QueryFor(key)));
    url
  }

  /** A link is the search prefix followed by the `quote_plus` form of the key's term. */
  lemma BuildLinkQuotes(key: string, city: Option<string>, q: string)
    requires FormEncoding.QuotePlus(QueryFor(key)) == q
    ensures BuildLink(key, city) == LinkPrefix + q
  {
  }

  /** The city hint never changes a link. */
  lemma BuildLinkIgnoresCity(key: string, c1: Option<string>, c2: Option<string>)
    ensures BuildLink(key, c1) == BuildLink(key, c2)
  {
  }

  /** A key outside the catalog yields a link whose query is empty: it ends with the search path. */
  lemma UnknownKeyEmptyQuery(key: string, city: Option<string>)
    requires key !in CategoryQueries
    ensures BuildLink(key, city) == BaseWeb + "/search?query="
    ensures SearchPath <= BuildLink(key, city)[|BaseWeb|..]
  {
    assert Utf8.Encode("") == [];
  }

  /** The categories offered to the user, in button order. */
  const CategoryOrder: seq<string> := ["pizza", "kebab", "burger", "sandwich", "irani"]

  /** The emoji heading each category's button, in button order. */
  const CategoryEmoji: seq<string> := ["🍕", "🍖", "🍔", "🥪", "🍽"]

  /** The word "cheap" that ends every button label. */
  const CheapWord: string := "ارزان"

  /** The button order lists every catalog key exactly once. */
  lemma CategoryOrderEnumeratesCatalog()
    ensures |CategoryOrder| == |CategoryQueries| == 5
    ensures forall k :: k in CategoryQueries <==> k in CategoryOrder
    ensures forall i, j :: 0 <= i < j < |CategoryOrder| ==> CategoryOrder[i] != CategoryOrder[j]
  {
  }

  /** The button labels exactly as displayed, in button order. */
  const ButtonLabels: seq<string> := [
    "🍕 پیتزا ارزان",
    "🍖 کباب ارزان",
    "🍔 برگر ارزان",
    "🥪 ساندویچ ارزان",
    "🍽 ایرانی ارزان"
  ]

  /** The label of button `i` is its category's emoji, the catalog's search term for it, and the word "cheap". */
  lemma ButtonLabelNamesItsTerm(i: nat)
    requires i < |ButtonLabels|
    ensures i < |CategoryOrder| && i < |CategoryEmoji| && CategoryOrder[i] in CategoryQueries
    ensures ButtonLabels[i] == CategoryEmoji[i] + " " + CategoryQueries[CategoryOrder[i]] + " " + CheapWord
  {
  }

  /**
   The (label, url) pairs for the category buttons: exactly five, in the fixed
   order, each with its category's label and the search link for that
   category, whose query decodes back to the category's search term.
   */
  function BuildInlinePairs(city: Option<string>): (pairs: seq<(string, string)>)
    ensures |pairs| == 5
    ensures forall i :: 0 <= i < |pairs| ==> pairs[i].0 == ButtonLabels[i]
    ensures forall i :: 0 <= i < |pairs| ==> pairs[i].1 == BuildLink(CategoryOrder[i], city)
    ensures forall i :: 0 <= i < |pairs| ==> BaseWeb <= pairs[i].1
    ensures forall i :: 0 <= i < |pairs| ==>
      && LinkPrefix <= pairs[i].1
      && FormEncoding.Unquote(QueryComponent(pairs[i].1)).Some?
      && Utf8.Decode(FormEncoding.Unquote(QueryComponent(pairs[i].1)).value) == Some(QueryFor(CategoryOrder[i]))
  {
    seq(|CategoryOrder|, i requires 0 <= i < |CategoryOrder| => (ButtonLabels[i], BuildLink(CategoryOrder[i], city)))
  }

  /** The city hint never changes the buttons. */
  lemma BuildInlinePairsIgnoresCity(c1: Option<string>, c2: Option<string>)
    ensures BuildInlinePairs(c1) == BuildInlinePairs(c2)
  {
  }
}
