/**
 * Company-logo lookup of the applications list: a company name is normalised,
 * turned into candidate web domains (an explicit domain, the built-in table of
 * well-known companies, or the name's words with common top-level domains),
 * and each domain into the URLs of three logo providers.
 */
module CompanyLogos {
  import opened Wrappers
  import opened Text

  predicate NoDuplicates(s: seq<string>) {
    forall i, j :: 0 <= i < j < |s| ==> s[i] != s[j]
  }

  /**
   * unique: drops empty strings and repeats (Array.from(new Set(items.filter(Boolean)))),
   * keeping the first occurrence of each value.
   */
  function Unique(items: seq<string>): (r: seq<string>)
    ensures NoDuplicates(r)
    ensures forall i :: 0 <= i < |r| ==> r[i] != []
    ensures forall x :: x in r <==> x in items && x != []
    ensures |r| <= |items|
  {
    if items == [] then []
    else
      var rest := Unique(items[..|items| - 1]);
      var x := items[|items| - 1];
      if x == [] || x in rest then rest else rest + [x]
  }

  /** The position of the first occurrence of x in s. */
  function FirstIndex(s: seq<string>, x: string): (k: nat)
    requires x in s
    ensures k < |s| && s[k] == x && x !in s[..k]
  {
    if s[0] == x then 0 else 1 + FirstIndex(s[1..], x)
  }

  lemma {:induction false} FirstIndexOfPrefix(s: seq<string>, n: nat, x: string)
    requires n <= |s| && x in s[..n]
    ensures FirstIndex(s, x) == FirstIndex(s[..n], x)
  {
    if s[0] != x {
      assert s[..n][1..] == s[1..][..n - 1];
      FirstIndexOfPrefix(s[1..], n - 1, x);
    }
  }

  lemma FirstIndexOfNew(s: seq<string>, n: nat, x: string)
    requires n < |s| && s[n] == x && x !in s[..n]
    ensures FirstIndex(s, x) == n
  {
  }

  /** unique lists values in the order of their first occurrence in the input. */
  lemma {:induction false} UniqueKeepsFirstOccurrenceOrder(items: seq<string>)
    ensures forall i, j :: 0 <= i < j < |Unique(items)| ==>
      FirstIndex(items, Unique(items)[i]) < FirstIndex(items, Unique(items)[j])
  {
    if items != [] {
      var n := |items| - 1;
      var init := items[..n];
      var rest := Unique(init);
      var x := items[n];
      UniqueKeepsFirstOccurrenceOrder(init);
      forall y | y in rest
        ensures FirstIndex(items, y) == FirstIndex(init, y) < n
      {
        FirstIndexOfPrefix(items, n, y);
      }
      if x != [] && x !in rest {
        assert x !in init;
        FirstIndexOfNew(items, n, x);
        var r := rest + [x];
        forall i, j | 0 <= i < j < |r|
          ensures r[i] in items && r[j] in items
          ensures FirstIndex(items, r[i]) < FirstIndex(items, r[j])
        {
          assert r[i] in rest;
          if j < |rest| {
            assert r[j] in rest;
          } else {
            assert r[j] == items[n];
          }
        }
      }
    }
  }

  /** A list without empty strings and repeats is its own unique list. */
  lemma {:induction false} UniqueOfDistinct(items: seq<string>)
    requires NoDuplicates(items) && forall i :: 0 <= i < |items| ==> items[i] != []
    ensures Unique(items) == items
  {
    if items != [] {
      var n := |items| - 1;
      UniqueOfDistinct(items[..n]);
      assert items[..n] + [items[n]] == items;
    }
  }

  /** unique is idempotent. */
  lemma UniqueIdempotent(items: seq<string>)
    ensures Unique(Unique(items)) == Unique(items)
  {
    UniqueOfDistinct(Unique(items));
  }

  /** Well-known companies and their domains, in the order the table lists them. */
  const DomainTable: seq<(string, string)> := [
    ("accenture", "accenture.com"), ("adobe", "adobe.com"), ("adyen", "adyen.com"),
    ("airbus", "airbus.com"), ("airbnb", "airbnb.com"), ("alibaba", "alibaba.com"),
    ("alphabet", "abc.xyz"), ("amazon", "amazon.com"), ("amd", "amd.com"),
    ("amex", "americanexpress.com"), ("asana", "asana.com"), ("apple", "apple.com"),
    ("aws", "aws.amazon.com"), ("atlassian", "atlassian.com"), ("b3", "b3.com.br"),
    ("banco do brasil", "bb.com.br"), ("bank of america", "bankofamerica.com"),
    ("bitso", "bitso.com"), ("blizzard", "blizzard.com"), ("booking", "booking.com"),
    ("btg", "btgpactual.com"), ("c6", "c6bank.com.br"), ("caixa", "caixa.gov.br"),
    ("canva", "canva.com"), ("carrefour", "carrefour.com"), ("cisco", "cisco.com"),
    ("coinbase", "coinbase.com"), ("disney", "disney.com"), ("discord", "discord.com"),
    ("docker", "docker.com"), ("datadog", "datadoghq.com"), ("deepmind", "deepmind.google"),
    ("deloitte", "deloitte.com"), ("doit", "doit.com"), ("dropbox", "dropbox.com"),
    ("ebay", "ebay.com"), ("embraer", "embraer.com"), ("epic games", "epicgames.com"),
    ("ericsson", "ericsson.com"), ("etsy", "etsy.com"), ("exxonmobil", "exxonmobil.com"),
    ("figma", "figma.com"), ("ford", "ford.com"), ("globo", "globo.com"),
    ("goldman sachs", "goldmansachs.com"), ("google", "google.com"), ("heineken", "heineken.com"),
    ("honda", "honda.com"), ("hsbc", "hsbc.com"), ("huawei", "huawei.com"), ("ibm", "ibm.com"),
    ("ita\U{FA}", "itau.com.br"), ("itau", "itau.com.br"), ("ifood", "ifood.com.br"),
    ("intel", "intel.com"), ("inter", "bancointer.com.br"), ("intuitive", "intuitive.com"),
    ("jimdo", "jimdo.com"), ("johnson", "jnj.com"), ("kpmg", "kpmg.com"), ("lg", "lg.com"),
    ("linha direta", "linhadireta.com.br"), ("loco", "loco.com"), ("linkedin", "linkedin.com"),
    ("lyft", "lyft.com"), ("mastercard", "mastercard.com"), ("meta", "meta.com"),
    ("microsoft", "microsoft.com"), ("monday", "monday.com"), ("mcdonalds", "mcdonalds.com"),
    ("mercedes", "mercedes-benz.com"), ("mercadolivre", "mercadolivre.com.br"),
    ("mercado livre", "mercadolivre.com.br"), ("mongodb", "mongodb.com"), ("monzo", "monzo.com"),
    ("nasa", "nasa.gov"), ("netflix", "netflix.com"), ("nestle", "nestle.com"),
    ("nike", "nike.com"), ("notion", "notion.so"), ("nvidia", "nvidia.com"),
    ("nubank", "nubank.com.br"), ("olx", "olx.com.br"), ("openai", "openai.com"),
    ("oracle", "oracle.com"), ("patreon", "patreon.com"), ("paypal", "paypal.com"),
    ("pepsico", "pepsico.com"), ("pinterest", "pinterest.com"), ("porsche", "porsche.com"),
    ("procter", "pg.com"), ("qualcomm", "qualcomm.com"), ("quora", "quora.com"),
    ("rappi", "rappi.com"), ("renault", "renaultgroup.com"), ("revolut", "revolut.com"),
    ("robinhood", "robinhood.com"), ("samsung", "samsung.com"), ("sap", "sap.com"),
    ("salesforce", "salesforce.com"), ("santander", "santander.com.br"), ("shell", "shell.com"),
    ("shopify", "shopify.com"), ("siemens", "siemens.com"), ("sony", "sony.com"),
    ("slack", "slack.com"), ("snap", "snap.com"), ("soundcloud", "soundcloud.com"),
    ("spotify", "spotify.com"), ("starbucks", "starbucks.com"), ("stone", "stone.com.br"),
    ("stripe", "stripe.com"), ("swift", "swift.com"), ("target", "target.com"),
    ("tesla", "tesla.com"), ("the new york times", "nytimes.com"), ("tmobile", "t-mobile.com"),
    ("toyota", "toyota.com"), ("tsla", "tesla.com"), ("tiktok", "tiktok.com"),
    ("twitch", "twitch.tv"), ("twitter", "x.com"), ("uber", "uber.com"),
    ("unilever", "unilever.com"), ("vale", "vale.com"), ("vercel", "vercel.com"),
    ("volvo", "volvo.com"), ("visa", "visa.com"), ("vivo", "vivo.com.br"),
    ("volkswagen", "volkswagen.com"), ("walmart", "walmart.com"), ("whatsapp", "whatsapp.com"),
    ("wise", "wise.com"), ("yahoo", "yahoo.com"), ("youtube", "youtube.com"),
    ("zillow", "zillow.com"), ("zoom", "zoom.us"), ("x", "x.com")
  ]

  /** Legal-form and filler words dropped from a company name. */
  const LegalSuffixes: set<string> := {
    "inc", "incorporated", "corp", "corporation", "co", "company", "llc", "ltd", "limited",
    "plc", "sa", "s.a", "s.a.", "s/a", "ltda", "me", "eireli", "group", "holding", "holdings",
    "tech", "technology", "technologies", "digital", "solutions", "solucoes", "solu\U{E7}\U{F5}es",
    "software"
  }

  /** Top-level domains tried for a name not found in the table, in order. */
  const CommonTlds: seq<string> := [".com", ".com.br", ".io", ".co", ".ai", ".dev", ".net"]

  /** The value stored under key in the table, if any. */
  function Lookup(table: seq<(string, string)>, key: string): (r: Option<string>)
    ensures r.Some? <==> exists i :: 0 <= i < |table| && table[i].0 == key
    ensures r.Some? ==> exists i :: 0 <= i < |table| && table[i] == (key, r.value)
  {
    if table == [] then None
    else if table[0].0 == key then Some(table[0].1)
    else Lookup(table[1..], key)
  }

  /** The value of the first entry whose key has at least 3 characters and occurs inside name. */
  function FindPartial(table: seq<(string, string)>, name: string): (r: Option<string>)
    ensures r.Some? ==> exists i :: IsFirstPartial(table, name, i, r.value)
    ensures r.None? ==> forall i :: 0 <= i < |table| ==> !PartialMatch(table[i].0, name)
  {
    if table == [] then None
    else if PartialMatch(table[0].0, name) then
      assert IsFirstPartial(table, name, 0, table[0].1);
      Some(table[0].1)
    else
      var r := FindPartial(table[1..], name);
      FirstPartialShifts(table, name, r);
      r
  }

  /** Entry i is the first whose key the partial search accepts, and its value is v. */
  predicate IsFirstPartial(table: seq<(string, string)>, name: string, i: int, v: string) {
    && 0 <= i < |table| && table[i].1 == v && PartialMatch(table[i].0, name)
    && forall j :: 0 <= j < i ==> !PartialMatch(table[j].0, name)
  }

  lemma FirstPartialShifts(table: seq<(string, string)>, name: string, r: Option<string>)
    requires table != [] && !PartialMatch(table[0].0, name)
    requires r.Some? ==> exists i :: IsFirstPartial(table[1..], name, i, r.value)
    ensures r.Some? ==> exists i :: IsFirstPartial(table, name, i, r.value)
  {
    if r.Some? {
      var i :| IsFirstPartial(table[1..], name, i, r.value);
      forall j | 0 < j < i + 1 ensures !PartialMatch(table[j].0, name) {
        assert table[j] == table[1..][j - 1];
      }
      assert IsFirstPartial(table, name, i + 1, r.value);
    }
  }

  /** A table key that the partial search accepts: at least 3 characters, and occurring in the name. */
  predicate PartialMatch(key: string, name: string) {
    |key| >= 3 && Contains(name, key)
  }

  /** A value of the given name-to-domain table. */
  predicate IsKnownDomain(table: seq<(string, string)>, d: string) {
    exists i :: 0 <= i < |table| && table[i].1 == d
  }

  /** normalizeCompanyName: trimmed and lower-cased (diacritics are not stripped here). */
  function NormalizeCompanyName(company: string): string {
    ToLower(JsTrim(company))
  }

  predicate IsNameChar(c: char) {
    ('a' <= c <= 'z') || ('0' <= c <= '9')
  }

  /** A string made of [a-z0-9] only. */
  predicate IsNameString(w: string) {
    forall i :: 0 <= i < |w| ==> IsNameChar(w[i])
  }

  predicate IsLabelChar(c: char) {
    IsNameChar(c) || c == '-'
  }

  /** A non-empty run of [a-z0-9-]. */
  predicate IsLabel(l: string) {
    l != [] && forall i :: 0 <= i < |l| ==> IsLabelChar(l[i])
  }

  /** Matches ^[a-z0-9-]+(\.[a-z0-9-]+)+$: two or more non-empty dot-separated labels. */
  predicate IsDomainLike(s: string) {
    var labels := Split(s, '.');
    |labels| >= 2 && forall l :: l in labels ==> IsLabel(l)
  }

  /** The name without one leading "www.". */
  function StripWww(s: string): (r: string)
    ensures "www." <= s ==> s == "www." + r
    ensures !("www." <= s) ==> r == s
  {
    if "www." <= s then s[4..] else s
  }

  /**
   * extractDomainLikeValue: the normalised input without a leading "www.",
   * exactly when that looks like a domain.
   */
  function ExtractDomainLikeValue(input: string): (r: Option<string>)
    ensures r.Some? <==> IsDomainLike(StripWww(NormalizeCompanyName(input)))
    ensures r.Some? ==> r.value == StripWww(NormalizeCompanyName(input))
    ensures r.Some? ==> r.value != [] && IsDomainLike(r.value)
  {
    var stripped := StripWww(NormalizeCompanyName(input));
    if IsDomainLike(stripped) then Some(stripped) else None
  }

  /** The name with every character outside [a-z0-9] removed. */
  function Compact(s: string): (r: string)
    ensures IsNameString(r)
  {
    if s == [] then []
    else (if IsNameChar(s[0]) then [s[0]] else []) + Compact(s[1..])
  }

  /**
   * The compact name is exactly the [a-z0-9] characters of the name: it keeps
   * their order and every one of their occurrences.
   */
  lemma CompactKeepsNameChars(s: string)
    ensures IsSubsequence(Compact(s), s)
    ensures forall c :: IsNameChar(c) ==> multiset(Compact(s))[c] == multiset(s)[c]
  {
    CompactIsSubsequence(s);
    CompactCountsNameChars(s);
  }

  lemma {:induction false} CompactIsSubsequence(s: string)
    ensures IsSubsequence(Compact(s), s)
  {
    if s != [] {
      var rest := Compact(s[1..]);
      CompactIsSubsequence(s[1..]);
      assert s == [s[0]] + s[1..];
      SubsequenceExtend(s[0], rest, s[1..]);
      if IsNameChar(s[0]) {
        assert Compact(s) == [s[0]] + rest;
      } else {
        assert Compact(s) == rest;
      }
    }
  }

  lemma {:induction false} CompactCountsNameChars(s: string)
    ensures forall c :: IsNameChar(c) ==> multiset(Compact(s))[c] == multiset(s)[c]
  {
    if s != [] {
      var rest := Compact(s[1..]);
      CompactCountsNameChars(s[1..]);
      assert s == [s[0]] + s[1..];
      assert multiset(s) == multiset{s[0]} + multiset(s[1..]);
      if IsNameChar(s[0]) {
        assert Compact(s) == [s[0]] + rest;
        assert multiset(Compact(s)) == multiset{s[0]} + multiset(rest);
      } else {
        assert Compact(s) == rest;
      }
    }
  }

  /** The maximal runs of [a-z0-9] in s, with the run started so far in cur. */
  function WordsFrom(s: string, cur: string): (r: seq<string>)
    requires IsNameString(cur)
    ensures forall w :: w in r ==> w != [] && IsNameString(w)
  {
    if s == [] then (if cur == [] then [] else [cur])
    else if IsNameChar(s[0]) then WordsFrom(s[1..], cur + [s[0]])
    else (if cur == [] then [] else [cur]) + WordsFrom(s[1..], [])
  }

  /** The words found after cur, concatenated, are cur followed by the compact rest of the name. */
  lemma {:induction false} WordsFromSpellCompact(s: string, cur: string)
    requires IsNameString(cur)
    ensures Concat(WordsFrom(s, cur)) == cur + Compact(s)
    decreases |s|
  {
    if s == [] {
      ConcatCons(cur, []);
    } else if IsNameChar(s[0]) {
      AppendNameStrings(cur, [s[0]]);
      assert WordsFrom(s, cur) == WordsFrom(s[1..], cur + [s[0]]);
      WordsFromSpellCompact(s[1..], cur + [s[0]]);
      assert Compact(s) == [s[0]] + Compact(s[1..]);
      assert (cur + [s[0]]) + Compact(s[1..]) == cur + ([s[0]] + Compact(s[1..]));
    } else {
      var rest := WordsFrom(s[1..], []);
      assert Compact(s) == Compact(s[1..]);
      WordsFromSpellCompact(s[1..], []);
      if cur == [] {
        assert WordsFrom(s, cur) == rest;
      } else {
        assert WordsFrom(s, cur) == [cur] + rest;
        ConcatCons(cur, rest);
      }
    }
  }

  /** split(/[^a-z0-9]+/).filter(Boolean).filter(not a legal suffix). */
  function NameWords(s: string): (r: seq<string>)
    ensures forall w :: w in r ==> w != [] && w !in LegalSuffixes && IsNameString(w)
  {
    DropSuffixes(Words(s))
  }

  /** The name words are the runs of [a-z0-9] that are not legal suffixes, in their order. */
  lemma NameWordsKeepsWords(s: string)
    ensures forall w :: w in NameWords(s) <==> w in Words(s) && w !in LegalSuffixes
    ensures IsSubsequence(NameWords(s), Words(s))
  {
    DropSuffixesIsSubsequence(Words(s));
  }

  /** The runs of [a-z0-9] of s, in order; together they spell the compact name. */
  function Words(s: string): (r: seq<string>)
    ensures forall w :: w in r ==> w != [] && IsNameString(w)
  {
    WordsFrom(s, [])
  }

  /** Joined together, the words spell the compact name. */
  lemma WordsSpellCompact(s: string)
    ensures Concat(Words(s)) == Compact(s)
  {
    WordsFromSpellCompact(s, []);
  }

  /** The words that are not legal suffixes, in their order. */
  function DropSuffixes(words: seq<string>): (r: seq<string>)
    ensures forall w :: w in r <==> w in words && w !in LegalSuffixes
  {
    if words == [] then []
    else (if words[0] in LegalSuffixes then [] else [words[0]]) + DropSuffixes(words[1..])
  }

  /** Dropping suffixes only deletes: the kept words stay in their order. */
  lemma {:induction false} DropSuffixesIsSubsequence(words: seq<string>)
    ensures IsSubsequence(DropSuffixes(words), words)
  {
    if words != [] {
      var rest := DropSuffixes(words[1..]);
      DropSuffixesIsSubsequence(words[1..]);
      assert words == [words[0]] + words[1..];
      SubsequenceExtend(words[0], rest, words[1..]);
      if words[0] in LegalSuffixes {
        assert DropSuffixes(words) == rest;
      } else {
        assert DropSuffixes(words) == [words[0]] + rest;
      }
    }
  }

  /** Concatenation of the words (join("")). */
  function Concat(words: seq<string>): (r: string)
    requires forall w :: w in words ==> IsNameString(w)
    ensures IsNameString(r)
  {
    if words == [] then []
    else
      assert words[0] in words;
      var rest := Concat(words[1..]);
      AppendNameStrings(words[0], rest);
      words[0] + rest
  }

  lemma ConcatCons(w: string, words: seq<string>)
    requires IsNameString(w) && forall v :: v in words ==> IsNameString(v)
    ensures Concat([w] + words) == w + Concat(words)
  {
    assert ([w] + words)[1..] == words;
  }

  lemma AppendNameStrings(a: string, b: string)
    requires IsNameString(a) && IsNameString(b)
    ensures IsNameString(a + b)
  {
    forall i | 0 <= i < |a + b| ensures IsNameChar((a + b)[i]) {
      if i >= |a| {
        assert (a + b)[i] == b[i - |a|];
      }
    }
  }

  /** A string of [a-z0-9] with at least two characters: an acceptable base for a guessed domain. */
  predicate IsDomainBase(base: string) {
    |base| >= 2 && IsNameString(base)
  }

  /** Candidates of length at least 2. */
  function LongEnough(candidates: seq<string>): (r: seq<string>)
    ensures forall b :: b in r <==> b in candidates && |b| >= 2
    ensures NoDuplicates(candidates) ==> NoDuplicates(r)
  {
    if candidates == [] then []
    else (if |candidates[0]| >= 2 then [candidates[0]] else []) + LongEnough(candidates[1..])
  }

  /** The bases tried with every common top-level domain. */
  function BaseCandidates(normalized: string): (r: seq<string>)
    ensures forall b :: b in r ==> IsDomainBase(b)
    ensures NoDuplicates(r)
  {
    LongEnough(Unique(RawBases(normalized)))
  }

  /** The bases tried are exactly the built bases with at least two characters. */
  lemma BaseCandidatesAreLongBases(normalized: string)
    ensures forall b :: b in BaseCandidates(normalized) <==> b in RawBases(normalized) && |b| >= 2
  {
  }

  /** words.join(""), words.slice(0, 2).join(""), words[0] ?? "" and the compact name. */
  function RawBases(normalized: string): (r: seq<string>)
    ensures forall b :: b in r ==> IsNameString(b)
  {
    var words := NameWords(normalized);
    var firstTwo := if |words| >= 2 then words[..2] else words;
    assert forall w :: w in firstTwo ==> w in words;
    var first := if words == [] then [] else words[0];
    [Concat(words), Concat(firstTwo), first, Compact(normalized)]
  }

  /**
   * Every base the source builds that has at least two characters is tried:
   * all words joined, the first two words joined, the first word, and the
   * compact name.
   */
  lemma BaseCandidatesIncludeBases(normalized: string)
    ensures var words := NameWords(normalized); var r := BaseCandidates(normalized);
      && (|Concat(words)| >= 2 ==> Concat(words) in r)
      && (|words| >= 2 ==> words[0] + words[1] in r)
      && (words != [] && |words[0]| >= 2 ==> words[0] in r)
      && (|Compact(normalized)| >= 2 ==> Compact(normalized) in r)
  {
    var raw := RawBases(normalized);
    RawBasesSpelled(normalized);
    BaseCandidatesAreLongBases(normalized);
    assert raw[0] in raw && raw[2] in raw && raw[3] in raw;
    BaseCandidatesIncludeFirstTwo(normalized);
  }

  lemma BaseCandidatesIncludeFirstTwo(normalized: string)
    ensures var words := NameWords(normalized);
      |words| >= 2 ==> words[0] + words[1] in BaseCandidates(normalized)
  {
    var words := NameWords(normalized);
    if |words| >= 2 {
      var raw := RawBases(normalized);
      RawBasesSpelled(normalized);
      assert raw[1] == words[0] + words[1];
      assert words[0] in words && words[1] in words;
      assert |raw[1]| >= 2;
      BaseCandidatesAreLongBases(normalized);
      assert raw[1] in raw;
    }
  }

  lemma RawBasesSpelled(normalized: string)
    ensures var words := NameWords(normalized); var raw := RawBases(normalized);
      && |raw| == 4 && raw[0] == Concat(words) && raw[3] == Compact(normalized)
      && (|words| >= 2 ==> raw[1] == words[0] + words[1])
      && (words != [] ==> raw[2] == words[0])
  {
    var words := NameWords(normalized);
    if |words| >= 2 {
      ConcatFirstTwo(words);
    }
  }

  lemma ConcatFirstTwo(words: seq<string>)
    requires |words| >= 2 && forall w :: w in words ==> IsNameString(w)
    ensures Concat(words[..2]) == words[0] + words[1]
  {
    assert words[..2] == [words[0]] + [words[1]];
    ConcatCons(words[1], []);
    ConcatCons(words[0], [words[1]]);
  }

  /** base followed by each common top-level domain. */
  function WithTlds(base: string): (r: seq<string>)
    ensures |r| == |CommonTlds|
    ensures forall i :: 0 <= i < |r| ==> r[i] == base + CommonTlds[i]
  {
    seq(|CommonTlds|, i requires 0 <= i < |CommonTlds| => base + CommonTlds[i])
  }

  /** A domain guessed from a name: a base followed by one of the common top-level domains. */
  ghost predicate IsGuessedDomain(d: string) {
    exists base, k :: 0 <= k < |CommonTlds| && d == base + CommonTlds[k] && IsDomainBase(base)
  }

  /** baseCandidates.flatMap(base => COMMON_DOMAINS_TLDS.map(tld => base + tld)). */
  function Guesses(bases: seq<string>): (r: seq<string>)
    requires forall b :: b in bases ==> IsDomainBase(b)
    ensures |r| == |bases| * |CommonTlds|
    ensures forall d :: d in r ==> IsGuessedDomain(d)
  {
    if bases == [] then []
    else
      var first := WithTlds(bases[0]);
      assert forall d :: d in first ==> IsGuessedDomain(d) by {
        forall d | d in first ensures IsGuessedDomain(d) {
          var k :| 0 <= k < |first| && first[k] == d;
          assert 0 <= k < |CommonTlds| && d == bases[0] + CommonTlds[k] && IsDomainBase(bases[0]);
        }
      }
      first + Guesses(bases[1..])
  }

  /** Guess i * |CommonTlds| + k is base i followed by top-level domain k: bases in order, each with every domain. */
  lemma {:induction false} GuessesListEveryPair(bases: seq<string>)
    requires forall b :: b in bases ==> IsDomainBase(b)
    ensures forall i, k :: 0 <= i < |bases| && 0 <= k < |CommonTlds| ==>
      Guesses(bases)[i * |CommonTlds| + k] == bases[i] + CommonTlds[k]
  {
    if bases != [] {
      var n := |CommonTlds|;
      var first := WithTlds(bases[0]);
      var rest := Guesses(bases[1..]);
      GuessesListEveryPair(bases[1..]);
      assert Guesses(bases) == first + rest;
      forall i, k | 0 <= i < |bases| && 0 <= k < n
        ensures Guesses(bases)[i * n + k] == bases[i] + CommonTlds[k]
      {
        if i > 0 {
          assert i * n + k == n + ((i - 1) * n + k);
          assert bases[1..][i - 1] == bases[i];
        }
      }
    }
  }

  /** A domain the table lists or one guessed from a name. */
  ghost predicate IsCandidate(table: seq<(string, string)>, d: string) {
    d != [] && (IsKnownDomain(table, d) || IsGuessedDomain(d))
  }

  lemma CandidatesOfFallback(table: seq<(string, string)>, a: Option<string>, b: Option<string>, guesses: seq<string>)
    requires a.Some? ==> IsKnownDomain(table, a.value)
    requires b.Some? ==> IsKnownDomain(table, b.value)
    requires forall d :: d in guesses ==> IsGuessedDomain(d)
    ensures forall d :: d in [[], a.GetOr([]), b.GetOr([])] + guesses && d != [] ==> IsCandidate(table, d)
  {
  }

  /**
   * The candidates of a name that is neither a domain nor a table key, each
   * once: the table's entry for the compact name first when there is one, the
   * first partial table match, and every guessed domain.
   */
  function FallbackDomains(table: seq<(string, string)>, normalized: string): (r: seq<string>)
    ensures NoDuplicates(r)
    ensures forall d :: d in r ==> IsCandidate(table, d)
  {
    var compactKnown := Lookup(table, Compact(normalized));
    var partialKnown := FindPartial(table, normalized);
    var guesses := Guesses(BaseCandidates(normalized));
    PartialIsKnown(table, normalized);
    CandidatesOfFallback(table, compactKnown, partialKnown, guesses);
    Unique([[], compactKnown.GetOr([]), partialKnown.GetOr([])] + guesses)
  }

  /**
   * The fallback candidates start with the table's entry for the compact
   * name when it has one, and include the first partial table match and
   * every guessed domain.
   */
  lemma FallbackDomainsInclude(table: seq<(string, string)>, normalized: string)
    ensures var r := FallbackDomains(table, normalized);
      && (Lookup(table, Compact(normalized)).GetOr([]) != [] ==>
            r != [] && r[0] == Lookup(table, Compact(normalized)).value)
      && (FindPartial(table, normalized).GetOr([]) != [] ==> FindPartial(table, normalized).value in r)
      && (forall d :: d in Guesses(BaseCandidates(normalized)) ==> d in r)
  {
    var compactKnown := Lookup(table, Compact(normalized)).GetOr([]);
    var partialKnown := FindPartial(table, normalized).GetOr([]);
    var guesses := Guesses(BaseCandidates(normalized));
    GuessesNonEmpty(BaseCandidates(normalized));
    UniqueOfCandidates(compactKnown, partialKnown, guesses);
  }

  /** unique over [compact hit, partial hit, guesses...]: the first non-empty hit leads, nothing non-empty is lost. */
  lemma UniqueOfCandidates(a: string, b: string, guesses: seq<string>)
    ensures var r := Unique([[], a, b] + guesses);
      && (a != [] ==> r != [] && r[0] == a)
      && (b != [] ==> b in r)
      && (forall d :: d in guesses && d != [] ==> d in r)
  {
    var items := [[], a, b] + guesses;
    UniqueStartsWithFirstNonEmpty(items, 1);
    assert items[2] == b;
    forall d | d in guesses ensures d in items {
      var k :| 0 <= k < |guesses| && guesses[k] == d;
      assert items[k + 3] == d;
    }
  }

  lemma GuessesNonEmpty(bases: seq<string>)
    requires forall b :: b in bases ==> IsDomainBase(b)
    ensures forall d :: d in Guesses(bases) ==> d != []
  {
  }

  lemma PartialIsKnown(table: seq<(string, string)>, name: string)
    ensures FindPartial(table, name).Some? ==> IsKnownDomain(table, FindPartial(table, name).value)
  {
  }

  /** unique of empty strings only is empty. */
  lemma {:induction false} UniqueOfEmpties(items: seq<string>)
    requires forall j :: 0 <= j < |items| ==> items[j] == []
    ensures Unique(items) == []
  {
    if items != [] {
      UniqueOfEmpties(items[..|items| - 1]);
    }
  }

  /** unique starts with the first non-empty item. */
  lemma {:induction false} UniqueStartsWithFirstNonEmpty(items: seq<string>, n: nat)
    requires n < |items|
    requires forall j :: 0 <= j < n ==> items[j] == []
    ensures items[n] != [] ==> Unique(items) != [] && Unique(items)[0] == items[n]
  {
    if items[n] != [] {
      var last := |items| - 1;
      var init := items[..last];
      if n < last {
        UniqueStartsWithFirstNonEmpty(init, n);
      } else {
        UniqueOfEmpties(init);
      }
    }
  }

  /** A candidate domain, or a name that already is a domain. */
  ghost predicate IsInferred(table: seq<(string, string)>, d: string) {
    IsCandidate(table, d) || (d != [] && IsDomainLike(d))
  }

  /**
   * inferDomainsFromName over a name-to-domain table: the candidate domains of
   * a company name, best first, each once. None for an empty name; the name
   * itself when it is already a domain; the table's non-empty entry for an
   * exact match; otherwise the fallback candidates.
   */
  function InferDomainsFromName(table: seq<(string, string)>, company: string): (r: seq<string>)
    ensures NoDuplicates(r)
    ensures forall d :: d in r ==> IsInferred(table, d)
  {
    var normalized := NormalizeCompanyName(company);
    if normalized == [] then []
    else DomainsOfName(table, normalized, ExtractDomainLikeValue(normalized))
  }

  /**
   * The candidates of a non-blank normalised name, given what the explicit-domain
   * check found: that domain alone, else the table's non-empty entry for the
   * exact name, else the fallback candidates.
   */
  function DomainsOfName(table: seq<(string, string)>, normalized: string, explicitDomain: Option<string>): (r: seq<string>)
    requires explicitDomain.Some? ==> explicitDomain.value != [] && IsDomainLike(explicitDomain.value)
    ensures NoDuplicates(r)
    ensures forall d :: d in r ==> IsInferred(table, d)
    ensures explicitDomain.Some? ==> r == [explicitDomain.value]
    ensures explicitDomain.None? && Lookup(table, normalized).GetOr([]) != [] ==> r == [Lookup(table, normalized).value]
    ensures explicitDomain.None? && Lookup(table, normalized).GetOr([]) == [] ==> r == FallbackDomains(table, normalized)
  {
    if explicitDomain.Some? then [explicitDomain.value]
    else
      var directKnown := Lookup(table, normalized);
      if directKnown.GetOr([]) != [] then
        assert IsKnownDomain(table, directKnown.value);
        [directKnown.value]
      else FallbackDomains(table, normalized)
  }

  /** A blank company name has no candidate domains. */
  lemma InferDomainsOfBlank(table: seq<(string, string)>, company: string)
    requires NormalizeCompanyName(company) == []
    ensures InferDomainsFromName(table, company) == []
  {
  }

  /** A name that is already a domain (after dropping "www.") is its only candidate. */
  lemma InferDomainsOfDomain(table: seq<(string, string)>, company: string)
    requires NormalizeCompanyName(company) != []
    requires ExtractDomainLikeValue(NormalizeCompanyName(company)).Some?
    ensures InferDomainsFromName(table, company) == [ExtractDomainLikeValue(NormalizeCompanyName(company)).value]
  {
  }

  /**
   * For a name that is neither a domain nor a table key, the candidates are
   * the fallback ones: the table's entry for the compact name first when there
   * is one, then the first partial table match and every guessed domain.
   */
  lemma InferDomainsOfUnknownName(table: seq<(string, string)>, company: string)
    requires NormalizeCompanyName(company) != []
    requires ExtractDomainLikeValue(NormalizeCompanyName(company)).None?
    requires Lookup(table, NormalizeCompanyName(company)).GetOr([]) == []
    ensures var normalized := NormalizeCompanyName(company);
      var r := InferDomainsFromName(table, company);
      && (Lookup(table, Compact(normalized)).GetOr([]) != [] ==>
            r != [] && r[0] == Lookup(table, Compact(normalized)).value)
      && (FindPartial(table, normalized).GetOr([]) != [] ==> FindPartial(table, normalized).value in r)
      && (forall d :: d in Guesses(BaseCandidates(normalized)) ==> d in r)
  {
    var normalized := NormalizeCompanyName(company);
    assert InferDomainsFromName(table, company) == FallbackDomains(table, normalized);
    FallbackDomainsInclude(table, normalized);
  }

  /** A name the table lists exactly, and that is not a domain itself, has the table's domain as only candidate. */
  lemma InferDomainsOfKnownName(table: seq<(string, string)>, company: string, domain: string)
    requires NormalizeCompanyName(company) != []
    requires ExtractDomainLikeValue(NormalizeCompanyName(company)).None?
    requires Lookup(table, NormalizeCompanyName(company)) == Some(domain) && domain != []
    ensures InferDomainsFromName(table, company) == [domain]
  {
  }

  /** The three logo-provider URLs tried for a domain. */
  function ProviderUrls(domain: string): (r: seq<string>)
    ensures |r| == 3
  {
    [ "https://logo.clearbit.com/" + domain,
      "https://www.google.com/s2/favicons?domain=" + domain + "&sz=128",
      "https://icons.duckduckgo.com/ip3/" + domain + ".ico" ]
  }

  /** domains.flatMap(buildProviderUrls). */
  function AllProviderUrls(domains: seq<string>): (r: seq<string>)
    ensures |r| == 3 * |domains|
    ensures forall u :: u in r <==> exists d :: d in domains && u in ProviderUrls(d)
  {
    if domains == [] then [] else ProviderUrls(domains[0]) + AllProviderUrls(domains[1..])
  }

  /** Every provider URL of the given domains, once each, in order. */
  function UrlsOfDomains(domains: seq<string>): (r: seq<string>)
    ensures |r| <= 3 * |domains|
    ensures NoDuplicates(r)
    ensures forall u :: u in r <==> exists d :: d in domains && u in ProviderUrls(d)
  {
    var urls := AllProviderUrls(domains);
    assert forall u :: u in urls ==> u != [] by {
      forall u | u in urls ensures u != [] {
        var d :| d in domains && u in ProviderUrls(d);
      }
    }
    Unique(urls)
  }

  /**
   * resolveCompanyLogoUrls: every provider URL of every inferred domain, once
   * each, in order; at most three per domain.
   */
  function ResolveCompanyLogoUrls(company: string): (r: seq<string>)
    ensures InferDomainsFromName(DomainTable, company) == [] ==> r == []
    ensures |r| <= 3 * |InferDomainsFromName(DomainTable, company)|
    ensures NoDuplicates(r)
    ensures forall u :: u in r <==> exists d :: d in InferDomainsFromName(DomainTable, company) && u in ProviderUrls(d)
  {
    var domains := InferDomainsFromName(DomainTable, company);
    if |domains| == 0 then [] else UrlsOfDomains(domains)
  }

  /** A single domain yields its three provider URLs, all different, in provider order. */
  lemma UrlsOfOneDomain(d: string)
    ensures UrlsOfDomains([d]) == ProviderUrls(d)
  {
    var urls := ProviderUrls(d);
    assert AllProviderUrls([d]) == urls;
    assert urls[0][8] == 'l' && urls[1][8] == 'w' && urls[2][8] == 'i';
    UniqueOfDistinct(urls);
  }

  /** A company given as a domain gets exactly the three provider URLs of that domain. */
  lemma ResolveExplicitDomain(company: string)
    requires NormalizeCompanyName(company) != []
    requires ExtractDomainLikeValue(NormalizeCompanyName(company)).Some?
    ensures ResolveCompanyLogoUrls(company) == ProviderUrls(ExtractDomainLikeValue(NormalizeCompanyName(company)).value)
  {
    var d := ExtractDomainLikeValue(NormalizeCompanyName(company)).value;
    InferDomainsOfDomain(DomainTable, company);
    UrlsOfOneDomain(d);
  }
}
