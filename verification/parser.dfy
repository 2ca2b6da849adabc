/**
  The free-text criteria parser (`parse_criteria` in app.py). The query is
  lower-cased and split into words; every word is looked at once, left to
  right, and produces at most one binding of a criteria key to a value. The
  bindings are applied in order to an initially empty map, so a key bound
  more than once keeps the value of its last binding.
 */
module Parser {
  import opened Wrappers
  import opened Text

  /** Filter key to required field value. */
  type Criteria = map<string, string>

  /** Dietary-option keywords and the record field each one sets. */
  const OptionKeys: map<string, string> :=
    map["glutenfree" := "glutenFree", "vegetarian" := "vegetarian",
        "vegan" := "vegan", "dairyfree" := "dairyFree"]

  /** Cuisine keywords and their capitalised canonical style. */
  const StyleNames: map<string, string> :=
    map["mexican" := "Mexican", "italian" := "Italian",
        "mediterranean" := "Mediterranean", "chinese" := "Chinese"]

  /** Every key the parser can ever set. */
  const CriteriaKeys: set<string> :=
    {"glutenFree", "vegetarian", "vegan", "dairyFree", "style",
     "delivery", "openHour", "closeHour", "address"}

  /** A word that starts an address: it contains one of the street-type
      markers anywhere inside it. */
  predicate IsAddressTrigger(w: string) {
    Contains(w, "street") || Contains(w, "avenue") || Contains(w, "boulevard")
  }

  /** A word the parser acts on by itself, without looking at its neighbours. */
  predicate IsKeyword(w: string) {
    w in OptionKeys || w in StyleNames || w == "delivery" || w == "open" || w == "close"
  }

  /** The criteria key the hour keyword `open` or `close` sets. */
  function HourKey(keyword: string): string {
    if keyword == "open" then "openHour" else "closeHour"
  }

  /** Word `i` is the hour keyword and is followed by a word containing `:`. */
  predicate TimedAt(words: seq<string>, i: int, keyword: string) {
    0 <= i && i + 1 < |words| && words[i] == keyword && ':' in words[i + 1]
  }

  datatype Binding = Binding(key: string, value: string)

  /** What word `i` of `words` sets, if anything: the body of the loop in
      `parse_criteria`, with its branches in the source's order. */
  function BindingAt(words: seq<string>, i: nat): (b: Option<Binding>)
    requires i < |words|
    ensures b.Some? ==> b.value.key in CriteriaKeys
  {
    var w := words[i];
    if w in OptionKeys then Some(Binding(OptionKeys[w], "true"))
    else if w in StyleNames then Some(Binding("style", StyleNames[w]))
    else if w == "delivery" then Some(Binding("delivery", "true"))
    else if w == "open" then
      if TimedAt(words, i, "open") then Some(Binding("openHour", words[i + 1])) else None
    else if w == "close" then
      if TimedAt(words, i, "close") then Some(Binding("closeHour", words[i + 1])) else None
    else if IsAddressTrigger(w) then Some(Binding("address", Join(words[i..])))
    else None
  }

  /** Word `i` is `open` or `close` without a following time word. */
  predicate TimedlessHour(words: seq<string>, i: int)
    requires 0 <= i < |words|
  {
    (words[i] == "open" || words[i] == "close") && !TimedAt(words, i, words[i])
  }

  /** A word binds nothing exactly when it is neither a keyword nor an
      address word, or it is an hour keyword without a time after it. */
  lemma NoBindingIff(words: seq<string>, i: nat)
    requires i < |words|
    ensures BindingAt(words, i).None? <==> (!IsKeyword(words[i]) && !IsAddressTrigger(words[i]))
                                           || TimedlessHour(words, i)
  {
  }

  /** The binding sets key `k`. */
  predicate SetsKey(b: Option<Binding>, k: string) {
    b.Some? && b.value.key == k
  }

  /** Word `i` binds key `k`. */
  predicate Binds(words: seq<string>, i: int, k: string) {
    0 <= i < |words| && SetsKey(BindingAt(words, i), k)
  }

  function Apply(c: Criteria, b: Option<Binding>): Criteria {
    match b
    case None => c
    case Some(Binding(k, v)) => c[k := v]
  }

  /** Applies the bindings in order to the empty map, each overwriting what
      came before it for its key. */
  function ApplyAll(bs: seq<Option<Binding>>): (c: Criteria)
    ensures forall k :: k in c <==> exists i :: 0 <= i < |bs| && SetsKey(bs[i], k)
  {
    if bs == [] then map[]
    else
      var init := bs[..|bs| - 1];
      assert forall i :: 0 <= i < |init| ==> init[i] == bs[i];
      Apply(ApplyAll(init), bs[|bs| - 1])
  }

  /** Folding one more binding applies it to the criteria so far. */
  lemma ApplyAllStep(bs: seq<Option<Binding>>, n: nat)
    requires n < |bs|
    ensures ApplyAll(bs[..n + 1]) == Apply(ApplyAll(bs[..n]), bs[n])
  {
    assert bs[..n + 1][..n] == bs[..n];
  }

  /** Last write wins: a key set by some binding holds the value of the last
      binding that sets it. */
  lemma {:induction false} ApplyAllLastWins(bs: seq<Option<Binding>>, k: string, i: nat)
    requires i < |bs| && SetsKey(bs[i], k)
    requires forall j :: i < j < |bs| ==> !SetsKey(bs[j], k)
    ensures k in ApplyAll(bs) && ApplyAll(bs)[k] == bs[i].value.value
    decreases |bs|
  {
    var init := bs[..|bs| - 1];
    if i < |bs| - 1 {
      assert forall j :: 0 <= j < |init| ==> init[j] == bs[j];
      ApplyAllLastWins(init, k, i);
    }
  }

  /** The bindings of the words, in order. */
  function Bindings(words: seq<string>): (bs: seq<Option<Binding>>)
    ensures |bs| == |words|
    ensures forall i :: 0 <= i < |words| ==> bs[i] == BindingAt(words, i)
  {
    seq(|words|, i requires 0 <= i < |words| => BindingAt(words, i))
  }

  /** The loop of `parse_criteria` over already split words. */
  function ParseWords(words: seq<string>): (c: Criteria)
    ensures c.Keys <= CriteriaKeys
  {
    var bs := Bindings(words);
    assert forall i :: 0 <= i < |bs| && bs[i].Some? ==> bs[i].value.key in CriteriaKeys;
    ApplyAll(bs)
  }

  /** `parse_criteria`: lower-case, split on whitespace, scan the words. */
  function ParseCriteria(q: string): (c: Criteria)
    ensures c.Keys <= CriteriaKeys
  {
    ParseWords(Split(Lower(q)))
  }

  /** Last write wins over the whole query: a key is set exactly when some
      word binds it, and then holds the value of the last such word. */
  lemma LastWins(words: seq<string>, k: string)
    ensures k in ParseWords(words) <==> exists i :: Binds(words, i, k)
    ensures forall i :: Binds(words, i, k) && (forall j :: i < j < |words| ==> !Binds(words, j, k))
                        ==> k in ParseWords(words)
                            && ParseWords(words)[k] == BindingAt(words, i).value.value
  {
    var bs := Bindings(words);
    assert forall i :: Binds(words, i, k) <==> 0 <= i < |bs| && SetsKey(bs[i], k);
    forall i | Binds(words, i, k) && (forall j :: i < j < |words| ==> !Binds(words, j, k))
      ensures k in ParseWords(words) && ParseWords(words)[k] == BindingAt(words, i).value.value
    {
      assert forall j :: i < j < |bs| ==> !SetsKey(bs[j], k) by {
        forall j | i < j < |bs| ensures !SetsKey(bs[j], k) {
          assert !Binds(words, j, k);
        }
      }
      ApplyAllLastWins(bs, k, i);
    }
  }

  /** A word lacking `b`, one letter of `street` and one of `avenue` is not
      an address word. */
  lemma LacksMarkerLetters(w: string, s: char, a: char)
    requires 'b' !in w
    requires s in "street" && s !in w
    requires a in "avenue" && a !in w
    ensures !IsAddressTrigger(w)
  {
    MissingCharNotContained(w, "boulevard", 'b');
    MissingCharNotContained(w, "street", s);
    MissingCharNotContained(w, "avenue", a);
  }

  lemma OptionWordIsNotAddressTrigger(w: string)
    requires w in OptionKeys
    ensures !IsAddressTrigger(w)
  {
    if w == "glutenfree" || w == "dairyfree" {
      LacksMarkerLetters(w, 's', 'v');
    } else {
      LacksMarkerLetters(w, 's', 'u');
    }
  }

  lemma StyleWordIsNotAddressTrigger(w: string)
    requires w in StyleNames
    ensures !IsAddressTrigger(w)
  {
    if w == "chinese" {
      LacksMarkerLetters(w, 't', 'v');
    } else {
      LacksMarkerLetters(w, 's', 'v');
    }
  }

  /** No keyword contains a street-type marker, so a keyword never starts an
      address. */
  lemma KeywordIsNotAddressTrigger(w: string)
    requires IsKeyword(w)
    ensures !IsAddressTrigger(w)
  {
    if w in OptionKeys {
      OptionWordIsNotAddressTrigger(w);
    } else if w in StyleNames {
      StyleWordIsNotAddressTrigger(w);
    } else if w == "delivery" {
      LacksMarkerLetters(w, 's', 'u');
    } else if w == "open" {
      LacksMarkerLetters(w, 's', 'v');
    } else {
      LacksMarkerLetters(w, 't', 'v');
    }
  }

  /** Exactly the address words bind `address`. */
  lemma BindsAddressIff(words: seq<string>, i: int)
    requires 0 <= i < |words|
    ensures Binds(words, i, "address") <==> IsAddressTrigger(words[i])
    ensures Binds(words, i, "address") ==> BindingAt(words, i).value.value == Join(words[i..])
  {
    if IsKeyword(words[i]) {
      KeywordIsNotAddressTrigger(words[i]);
    }
  }

  /** The keys set to the literal `"true"`. */
  const FlagKeys: set<string> := {"glutenFree", "vegetarian", "vegan", "dairyFree", "delivery"}

  /** The flag key a dietary keyword or `delivery` sets. */
  function FlagKey(w: string): string
    requires w in OptionKeys || w == "delivery"
  {
    if w in OptionKeys then OptionKeys[w] else "delivery"
  }

  /** When every binding that sets `k` sets it to `v`, `k` can only hold `v`. */
  lemma {:induction false} ApplyAllSingleValue(bs: seq<Option<Binding>>, k: string, v: string)
    requires forall i :: 0 <= i < |bs| && SetsKey(bs[i], k) ==> bs[i].value.value == v
    requires k in ApplyAll(bs)
    ensures ApplyAll(bs)[k] == v
    decreases |bs|
  {
    var init := bs[..|bs| - 1];
    assert forall j :: 0 <= j < |init| ==> init[j] == bs[j];
    if !SetsKey(bs[|bs| - 1], k) {
      ApplyAllSingleValue(init, k, v);
    }
  }

  /** Only `"true"` is ever bound to a dietary key or to `delivery`. */
  lemma FlagsHoldTrue(words: seq<string>, k: string)
    requires k in FlagKeys && k in ParseWords(words)
    ensures ParseWords(words)[k] == "true"
  {
    var bs := Bindings(words);
    forall i | 0 <= i < |bs| && SetsKey(bs[i], k)
      ensures bs[i].value.value == "true"
    {
      FlagBindingIsTrue(words, i, k);
    }
    ApplyAllSingleValue(bs, k, "true");
  }

  /** A single word that binds a flag key binds it to `"true"`. */
  lemma FlagBindingIsTrue(words: seq<string>, i: nat, k: string)
    requires i < |words| && k in FlagKeys && SetsKey(BindingAt(words, i), k)
    ensures BindingAt(words, i).value.value == "true"
  {
  }

  /** A dietary keyword or `delivery` anywhere in the query sets its key to
      `"true"`, whatever else the query holds. */
  lemma FlagKeywordSetsTrue(words: seq<string>, i: nat)
    requires i < |words| && (words[i] in OptionKeys || words[i] == "delivery")
    ensures FlagKey(words[i]) in ParseWords(words)
    ensures ParseWords(words)[FlagKey(words[i])] == "true"
  {
    LastWins(words, FlagKey(words[i]));
    assert Binds(words, i, FlagKey(words[i]));
    FlagsHoldTrue(words, FlagKey(words[i]));
  }

  /** Exactly the occurrences of a dietary keyword or of `delivery` bind its
      flag key: no two flag words share a key. */
  lemma BindsFlagIff(words: seq<string>, i: nat, w: string)
    requires i < |words| && (w in OptionKeys || w == "delivery")
    ensures Binds(words, i, FlagKey(w)) <==> words[i] == w
  {
  }

  /** A flag key is present exactly when its keyword occurs in the query. */
  lemma FlagPresentIff(words: seq<string>, w: string)
    requires w in OptionKeys || w == "delivery"
    ensures FlagKey(w) in ParseWords(words) <==> exists i :: 0 <= i < |words| && words[i] == w
  {
    LastWins(words, FlagKey(w));
    forall i | 0 <= i < |words|
      ensures Binds(words, i, FlagKey(w)) <==> words[i] == w
    {
      BindsFlagIff(words, i, w);
    }
  }

  /** `style` is set exactly when some word is a cuisine keyword, and then to
      the canonical form of the last one. */
  lemma StyleIsLastCuisine(words: seq<string>)
    ensures "style" in ParseWords(words) <==> exists i :: 0 <= i < |words| && words[i] in StyleNames
    ensures forall i :: 0 <= i < |words| && words[i] in StyleNames
                        && (forall j :: i < j < |words| ==> words[j] !in StyleNames)
                        ==> "style" in ParseWords(words)
                            && ParseWords(words)["style"] == StyleNames[words[i]]
  {
    LastWins(words, "style");
    forall i | 0 <= i < |words|
      ensures Binds(words, i, "style") <==> words[i] in StyleNames
      ensures Binds(words, i, "style") ==> BindingAt(words, i).value.value == StyleNames[words[i]]
    {
      BindsStyleIff(words, i);
    }
  }

  /** Exactly the cuisine keywords bind `style`, each to its canonical form. */
  lemma BindsStyleIff(words: seq<string>, i: nat)
    requires i < |words|
    ensures Binds(words, i, "style") <==> words[i] in StyleNames
    ensures Binds(words, i, "style") ==> BindingAt(words, i).value.value == StyleNames[words[i]]
  {
  }

  /** `openHour` (for `open`) or `closeHour` (for `close`) is set exactly when
      the keyword is followed by a word containing `:`, and then to that word
      after its last such occurrence; an occurrence without a time leaves the
      key as it was. */
  lemma HourIsLastTimedKeyword(words: seq<string>, keyword: string)
    requires keyword == "open" || keyword == "close"
    ensures HourKey(keyword) in ParseWords(words) <==> exists i :: TimedAt(words, i, keyword)
    ensures forall i :: TimedAt(words, i, keyword)
                        && (forall j :: i < j < |words| ==> !TimedAt(words, j, keyword))
                        ==> HourKey(keyword) in ParseWords(words)
                            && ParseWords(words)[HourKey(keyword)] == words[i + 1]
  {
    var k := HourKey(keyword);
    LastWins(words, k);
    forall i
      ensures Binds(words, i, k) <==> TimedAt(words, i, keyword)
      ensures Binds(words, i, k) ==> BindingAt(words, i).value.value == words[i + 1]
    {
      if 0 <= i < |words| {
        BindsHourIff(words, i, keyword);
      }
    }
  }

  /** Exactly an hour keyword followed by a word containing `:` binds its
      hour key, to that following word. */
  lemma BindsHourIff(words: seq<string>, i: nat, keyword: string)
    requires i < |words| && (keyword == "open" || keyword == "close")
    ensures Binds(words, i, HourKey(keyword)) <==> TimedAt(words, i, keyword)
    ensures Binds(words, i, HourKey(keyword)) ==> i + 1 < |words| && BindingAt(words, i).value.value == words[i + 1]
  {
  }

  /** `address` is set exactly when some word starts an address, and then to
      the words from the last such one to the end of the query, joined by
      single spaces. */
  lemma AddressIsLastTriggerSuffix(words: seq<string>)
    ensures "address" in ParseWords(words) <==> exists i :: 0 <= i < |words| && IsAddressTrigger(words[i])
    ensures forall i :: 0 <= i < |words| && IsAddressTrigger(words[i])
                        && (forall j :: i < j < |words| ==> !IsAddressTrigger(words[j]))
                        ==> "address" in ParseWords(words)
                            && ParseWords(words)["address"] == Join(words[i..])
  {
    LastWins(words, "address");
    forall i | 0 <= i < |words|
      ensures Binds(words, i, "address") <==> IsAddressTrigger(words[i])
      ensures Binds(words, i, "address") ==> BindingAt(words, i).value.value == Join(words[i..])
    {
      BindsAddressIff(words, i);
    }
  }

  /** The criteria are empty exactly when no word binds anything. */
  lemma EmptyIffNothingBinds(words: seq<string>)
    ensures ParseWords(words) == map[] <==> forall i :: 0 <= i < |words| ==> BindingAt(words, i).None?
  {
    forall k | k in ParseWords(words)
      ensures exists i :: Binds(words, i, k)
    {
      LastWins(words, k);
    }
    if exists i :: 0 <= i < |words| && BindingAt(words, i).Some? {
      var i :| 0 <= i < |words| && BindingAt(words, i).Some?;
      LastWins(words, BindingAt(words, i).value.key);
    }
  }

  /** A query whose words are neither keywords nor address words parses to
      no criteria at all. */
  lemma UnrecognisedWordsParseEmpty(words: seq<string>)
    requires forall w :: w in words ==> !IsKeyword(w) && !IsAddressTrigger(w)
    ensures ParseWords(words) == map[]
  {
    EmptyIffNothingBinds(words);
    forall i | 0 <= i < |words|
      ensures BindingAt(words, i).None?
    {
      assert words[i] in words;
      NoBindingIff(words, i);
    }
  }

  /** Parsing ignores letter case. */
  lemma ParseIgnoresCase(q: string)
    ensures ParseCriteria(Lower(q)) == ParseCriteria(q)
  {
    LowerIdempotent(q);
  }

  /** A lower-case query of words separated by single spaces parses like the
      sequence of its words. */
  lemma ParseOfJoin(ws: seq<string>)
    requires LowerWords(ws)
    ensures ParseCriteria(Join(ws)) == ParseWords(ws)
  {
    JoinLowerWords(ws);
    ParseOfSplit(Join(ws), ws);
  }

  /** A lower-case query parses like the words it splits into. */
  lemma ParseOfSplit(q: string, ws: seq<string>)
    requires Lower(q) == q && Split(q) == ws
    ensures ParseCriteria(q) == ParseWords(ws)
  {
  }
}
