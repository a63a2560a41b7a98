/**
 The repository's own unit tests, restated as lemmas about the model: link
 encoding, the five buttons, the unknown category, the geocoding success,
 county fallback and failure cases, and the store's save/read and absent
 cases.
 */
module BotTests {
  import opened Wrappers
  import FormEncoding
  import LinkCatalog
  import Geocode
  import LocationStore

  // Each letter of the pizza term is two UTF-8 bytes, both escaped.

  lemma QuoteLetterPe()
    ensures FormEncoding.QuotePlus("پ") == "%D9%BE"
  {
  }

  lemma QuoteLetterYe()
    ensures FormEncoding.QuotePlus("ی") == "%DB%8C"
  {
  }

  lemma QuoteLetterTe()
    ensures FormEncoding.QuotePlus("ت") == "%D8%AA"
  {
  }

  lemma QuoteLetterZe()
    ensures FormEncoding.QuotePlus("ز") == "%D8%B2"
  {
  }

  lemma QuoteLetterAlef()
    ensures FormEncoding.QuotePlus("ا") == "%D8%A7"
  {
  }

  /** Encoding a five-letter word is encoding its letters one after another. */
  lemma QuotePlusFiveLetters(term: string, a: string, b: string, c: string, d: string, e: string)
    requires term == a + b + c + d + e
    ensures FormEncoding.QuotePlus(term)
         == FormEncoding.QuotePlus(a) + FormEncoding.QuotePlus(b) + FormEncoding.QuotePlus(c)
          + FormEncoding.QuotePlus(d) + FormEncoding.QuotePlus(e)
  {
    FormEncoding.QuotePlusAppend(a + b + c + d, e);
    FormEncoding.QuotePlusAppend(a + b + c, d);
    FormEncoding.QuotePlusAppend(a + b, c);
    FormEncoding.QuotePlusAppend(a, b);
  }

  /** `quote_plus` of the pizza term, as the escaped pairs of its five letters. */
  lemma QuotePizzaTerm()
    ensures FormEncoding.QuotePlus("پیتزا") == "%D9%BE" + "%DB%8C" + "%D8%AA" + "%D8%B2" + "%D8%A7"
  {
    QuotePlusFiveLetters("پیتزا", "پ", "ی", "ت", "ز", "ا");
    QuoteLetterPe();
    QuoteLetterYe();
    QuoteLetterTe();
    QuoteLetterZe();
    QuoteLetterAlef();
  }

  lemma PizzaQuery()
    ensures LinkCatalog.QueryFor("pizza") == "پیتزا"
  {
  }

  lemma JoinPizzaEscapes()
    ensures "%D9%BE" + "%DB%8C" + "%D8%AA" + "%D8%B2" + "%D8%A7" == "%D9%BE%DB%8C%D8%AA%D8%B2%D8%A7"
  {
  }

  /** The pizza link, built with a city hint, is the search path followed by the escaped Persian term. */
  lemma LinkEncodingVector()
    ensures LinkCatalog.BuildLink("pizza", Some("تهران"))
         == LinkCatalog.BaseWeb + "/search?query=" + "%D9%BE%DB%8C%D8%AA%D8%B2%D8%A7"
  {
    PizzaQuery();
    QuotePizzaTerm();
    JoinPizzaEscapes();
    LinkCatalog.BuildLinkQuotes("pizza", Some("تهران"), "%D9%BE%DB%8C%D8%AA%D8%B2%D8%A7");
  }

  /** Five buttons, among them the pizza and the Iranian-food labels, every url under the website's base, for any city hint. */
  lemma InlinePairsCountLabelsAndBase(city: Option<string>)
    ensures var pairs := LinkCatalog.BuildInlinePairs(city);
      && |pairs| == 5
      && pairs[0].0 == "🍕 پیتزا ارزان"
      && pairs[4].0 == "🍽 ایرانی ارزان"
      && forall i :: 0 <= i < |pairs| ==> LinkCatalog.BaseWeb <= pairs[i].1
  {
    var pairs := LinkCatalog.BuildInlinePairs(city);
    assert pairs[0].0 == LinkCatalog.ButtonLabels[0];
    assert pairs[4].0 == LinkCatalog.ButtonLabels[4];
  }

  /** An unknown category yields a link that ends with the search path. */
  lemma UnknownCategoryEmptyQuery()
    ensures var url := LinkCatalog.BuildLink("unknown", None);
      |url| >= 14 && url[|url| - 14..] == "/search?query="
  {
    LinkCatalog.UnknownKeyEmptyQuery("unknown", None);
  }

  /** A body with a `city` component: that city, and the display name as the address. */
  lemma GeocodeSuccess()
    ensures Geocode.ReverseGeocode(Geocode.Answered(Geocode.Body(Some("Some Address, Tehran, Iran"),
                                                                 Geocode.Object(map["city" := "Tehran"]))))
         == Geocode.Place("Tehran", "Some Address, Tehran, Iran")
  {
    Geocode.CityBeatsOthers(map["city" := "Tehran"], Some("Some Address, Tehran, Iran"));
  }

  /** A body with only a `county` component: the county is the city. */
  lemma GeocodeCountyFallback()
    ensures Geocode.ReverseGeocode(Geocode.Answered(Geocode.Body(Some("Addr, Tehran County, Iran"),
                                                                 Geocode.Object(map["county" := "Tehran County"]))))
         == Geocode.Place("Tehran County", "Addr, Tehran County, Iran")
  {
    Geocode.CountyFallback(map["county" := "Tehran County"], Some("Addr, Tehran County, Iran"));
  }

  /** A network error: two empty strings. */
  lemma GeocodeFailure()
    ensures Geocode.ReverseGeocode(Geocode.Failed) == Geocode.Place("", "")
  {
  }

  /** Save then read back on a freshly initialised store. */
  lemma SaveAndGetUserLocation()
    ensures var db := LocationStore.Save(LocationStore.InitDb(LocationStore.NoTable), 123, 1.1, 2.2, "CityX", "AddrY", 0);
      && db.Success?
      && LocationStore.Get(db.value, 123) == Success(Some(LocationStore.Location(1.1, 2.2, "CityX", "AddrY")))
  {
  }

  /** Reading an id that was never saved gives "absent", not an error. */
  lemma GetUserLocationAbsent()
    ensures LocationStore.Get(LocationStore.InitDb(LocationStore.NoTable), 999) == Success(None)
  {
  }
}
