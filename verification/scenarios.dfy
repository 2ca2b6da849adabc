/**
  Worked queries: `mexican chinese` is stated on its query string, the
  longer query on its words (by `Parser.ParseOfJoin`, a lower-case query
  of single-spaced words parses exactly like its words).
 */
module Scenarios {
  import opened Wrappers
  import opened Text
  import opened Parser

  /** "mexican chinese": of two cuisine keywords the later one sets `style`. */
  lemma TwoCuisines(ws: seq<string>)
    requires ws == ["mexican", "chinese"]
    ensures ParseWords(ws) == map["style" := "Chinese"]
  {
    var bs := Bindings(ws);
    assert bs[..1] == [Some(Binding("style", "Mexican"))];
    assert ApplyAll(bs[..1]) == map["style" := "Mexican"];
  }

  /** "mexican chinese" is its two words, lower-case and single-spaced. */
  lemma TwoCuisinesWords(ws: seq<string>)
    requires ws == ["mexican", "chinese"]
    ensures Join(ws) == "mexican chinese" && LowerWords(ws)
  {
    assert Join(ws) == "mexican chinese" by {
      JoinPair("mexican", "chinese");
    }
    assert LowerWords(ws) by {
      assert IsLetterWord("mexican") && IsLetterWord("chinese");
      LetterPair("mexican", "chinese");
    }
  }

  /** The query string "mexican chinese" itself. */
  lemma TwoCuisinesQuery(q: string)
    requires q == "mexican chinese"
    ensures ParseCriteria(q) == map["style" := "Chinese"]
  {
    var ws := ["mexican", "chinese"];
    TwoCuisinesWords(ws);
    ParseOfJoin(ws);
    TwoCuisines(ws);
  }

  /** The words of "vegetarian italian open 18:00 close 22:00 123 main street". */
  predicate IsFullQuery(ws: seq<string>) {
    ws == ["vegetarian", "italian", "open", "18:00", "close", "22:00", "123", "main", "street"]
  }

  lemma FullQueryOpening(ws: seq<string>)
    requires IsFullQuery(ws)
    ensures BindingAt(ws, 0) == Some(Binding("vegetarian", "true"))
    ensures BindingAt(ws, 1) == Some(Binding("style", "Italian"))
    ensures BindingAt(ws, 2) == Some(Binding("openHour", "18:00"))
  {
  }

  lemma FullQueryOpenTime(ws: seq<string>)
    requires IsFullQuery(ws)
    ensures BindingAt(ws, 3) == None
  {
    LacksMarkerLetters("18:00", 's', 'v');
  }

  lemma FullQueryClose(ws: seq<string>)
    requires IsFullQuery(ws)
    ensures BindingAt(ws, 4) == Some(Binding("closeHour", "22:00"))
    ensures BindingAt(ws, 5) == None
  {
    LacksMarkerLetters("22:00", 's', 'v');
  }

  lemma FullQueryAddress(ws: seq<string>)
    requires IsFullQuery(ws)
    ensures BindingAt(ws, 6) == None
    ensures BindingAt(ws, 7) == None
    ensures BindingAt(ws, 8) == Some(Binding("address", "street"))
  {
    LacksMarkerLetters("123", 's', 'v');
    LacksMarkerLetters("main", 's', 'v');
    assert ws[8..] == ["street"];
  }

  /** The binding each word of the query produces. */
  lemma FullQueryBindings(ws: seq<string>)
    requires IsFullQuery(ws)
    ensures IsFullQueryBound(Bindings(ws))
  {
    FullQueryOpening(ws);
    FullQueryOpenTime(ws);
    FullQueryClose(ws);
    FullQueryAddress(ws);
  }

  /** The bindings of the query, one per word. */
  predicate IsFullQueryBound(bs: seq<Option<Binding>>) {
    && |bs| == 9
    && bs[0] == Some(Binding("vegetarian", "true"))
    && bs[1] == Some(Binding("style", "Italian"))
    && bs[2] == Some(Binding("openHour", "18:00"))
    && bs[3] == None
    && bs[4] == Some(Binding("closeHour", "22:00"))
    && bs[5] == None
    && bs[6] == None
    && bs[7] == None
    && bs[8] == Some(Binding("address", "street"))
  }

  /** Folding the query's bindings: none overwrites another. */
  lemma FoldFullQuery(bs: seq<Option<Binding>>)
    requires IsFullQueryBound(bs)
    ensures ApplyAll(bs)
         == map["vegetarian" := "true", "style" := "Italian", "openHour" := "18:00",
                "closeHour" := "22:00", "address" := "street"]
  {
    assert ApplyAll(bs[..0]) == map[];
    ApplyAllStep(bs, 0);
    ApplyAllStep(bs, 1);
    ApplyAllStep(bs, 2);
    ApplyAllStep(bs, 3);
    ApplyAllStep(bs, 4);
    ApplyAllStep(bs, 5);
    ApplyAllStep(bs, 6);
    ApplyAllStep(bs, 7);
    ApplyAllStep(bs, 8);
    assert bs[..9] == bs;
  }

  /** Every criterion of the query is found, but the address is only the
      word `street`: the capture starts at the word holding the marker, not
      at the house number before it. */
  lemma FullQuery(ws: seq<string>)
    requires IsFullQuery(ws)
    ensures ParseWords(ws)
         == map["vegetarian" := "true", "style" := "Italian", "openHour" := "18:00",
                "closeHour" := "22:00", "address" := "street"]
  {
    FullQueryBindings(ws);
    FoldFullQuery(Bindings(ws));
  }
}
