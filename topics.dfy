// The topic tagger: `TOPIC_MAP`, `SPECIAL_KEYWORDS` and
// `detect_topic_label`.  The table is an ordered sequence, because the
// search walks the dictionary in declaration order and the first entry
// with a matching keyword wins.

module Topics {
  import opened Text
  import opened CaseFold

  /** One entry of the topic table: a label and its keywords. */
  datatype Topic = Topic(name: string, keywords: seq<string>)

  /** `TOPIC_MAP`, in declaration order. */
  const TopicMap: seq<Topic> := [
    Topic("Jegy – Belépési problémák", ["belépni", "jelszó", "fiók", "login", "bejelentkezés"]),
    Topic("Jegy – Számlázás", ["számla", "számlázás", "díj", "billing", "invoice"]),
    Topic("Jegy – Teljesítmény", ["lassú", "betöltés", "teljesítmény", "performance"]),
    Topic("Ügyfél", ["ügyfél", "customer"]),
    Topic("Support", ["support", "ügynök", "agent"])
  ]

  /** `DEFAULT_LABEL` */
  const DefaultLabel: string := "[Általános]"

  /** `SPECIAL_KEYWORDS`: every keyword of every entry. */
  const SpecialKeywords: set<string> :=
    set i, j | 0 <= i < |TopicMap| && 0 <= j < |TopicMap[i].keywords| :: TopicMap[i].keywords[j]

  /** `f"[{label}]"` */
  function Bracket(name: string): string {
    "[" + name + "]"
  }

  /** `any(k in low for k in keys)` */
  predicate AnyKeyword(keys: seq<string>, low: string) {
    exists k :: k in keys && Contains(low, k)
  }

  /** The search loop of `detect_topic_label` over what is left of the
      table, on the already lower-cased text. */
  function DetectIn(table: seq<Topic>, low: string): string {
    if table == [] then DefaultLabel
    else if AnyKeyword(table[0].keywords, low) then Bracket(table[0].name)
    else DetectIn(table[1..], low)
  }

  /** `detect_topic_label(text)` */
  function DetectTopicLabel(text: string): string {
    DetectIn(TopicMap, Lower(text))
  }

  /** Entry `i` is the first one with a keyword in `low`. */
  predicate FirstHit(table: seq<Topic>, low: string, i: int) {
    0 <= i < |table| && AnyKeyword(table[i].keywords, low)
    && forall j :: 0 <= j < i ==> !AnyKeyword(table[j].keywords, low)
  }

  /** The search returns the bracketed label of the first entry that hits. */
  lemma {:induction false} DetectInFirstHit(table: seq<Topic>, low: string, i: int)
    requires FirstHit(table, low, i)
    ensures DetectIn(table, low) == Bracket(table[i].name)
    decreases |table|
  {
    if i > 0 {
      assert !AnyKeyword(table[0].keywords, low);
      assert FirstHit(table[1..], low, i - 1) by {
        forall j | 0 <= j < i - 1 ensures !AnyKeyword(table[1..][j].keywords, low) {
          assert table[1..][j] == table[j + 1];
        }
      }
      DetectInFirstHit(table[1..], low, i - 1);
    }
  }

  /** When no entry hits, the search returns the default label. */
  lemma {:induction false} DetectInNoHit(table: seq<Topic>, low: string)
    requires forall i :: 0 <= i < |table| ==> !AnyKeyword(table[i].keywords, low)
    ensures DetectIn(table, low) == DefaultLabel
    decreases |table|
  {
    if table != [] {
      assert forall i :: 0 <= i < |table| - 1 ==> table[1..][i] == table[i + 1];
      DetectInNoHit(table[1..], low);
    }
  }

  /** Some entry hits exactly when some special keyword occurs. */
  lemma SpecialIffSomeEntry(low: string)
    ensures (exists k :: k in SpecialKeywords && Contains(low, k))
        <==> (exists i :: 0 <= i < |TopicMap| && AnyKeyword(TopicMap[i].keywords, low))
  {
    if exists k :: k in SpecialKeywords && Contains(low, k) {
      var k :| k in SpecialKeywords && Contains(low, k);
      var i, j :| 0 <= i < |TopicMap| && 0 <= j < |TopicMap[i].keywords| && k == TopicMap[i].keywords[j];
      assert AnyKeyword(TopicMap[i].keywords, low);
    }
    if exists i :: 0 <= i < |TopicMap| && AnyKeyword(TopicMap[i].keywords, low) {
      var i :| 0 <= i < |TopicMap| && AnyKeyword(TopicMap[i].keywords, low);
      var k :| k in TopicMap[i].keywords && Contains(low, k);
      var j :| 0 <= j < |TopicMap[i].keywords| && k == TopicMap[i].keywords[j];
      assert k in SpecialKeywords;
    }
  }

  /** If some entry hits, there is a first one. */
  lemma {:induction false} FirstHitExists(table: seq<Topic>, low: string, i: int) returns (f: int)
    requires 0 <= i < |table| && AnyKeyword(table[i].keywords, low)
    ensures FirstHit(table, low, f) && f <= i
    decreases i
  {
    if exists j :: 0 <= j < i && AnyKeyword(table[j].keywords, low) {
      var j :| 0 <= j < i && AnyKeyword(table[j].keywords, low);
      f := FirstHitExists(table, low, j);
    } else {
      f := i;
    }
  }

  /** `detect_topic_label` returns the bracketed label of the first entry,
      in declaration order, with a keyword in the lower-cased text, and
      `DEFAULT_LABEL` when there is none. */
  lemma DetectTopicLabelSpec(text: string)
    ensures forall i :: FirstHit(TopicMap, Lower(text), i) ==> DetectTopicLabel(text) == Bracket(TopicMap[i].name)
    ensures (forall i :: 0 <= i < |TopicMap| ==> !AnyKeyword(TopicMap[i].keywords, Lower(text)))
            ==> DetectTopicLabel(text) == DefaultLabel
  {
    forall i | FirstHit(TopicMap, Lower(text), i) ensures DetectTopicLabel(text) == Bracket(TopicMap[i].name) {
      DetectInFirstHit(TopicMap, Lower(text), i);
    }
    if forall i :: 0 <= i < |TopicMap| ==> !AnyKeyword(TopicMap[i].keywords, Lower(text)) {
      DetectInNoHit(TopicMap, Lower(text));
    }
  }

  /** No entry's bracketed label is `DEFAULT_LABEL`: no entry name starts
      with `Á`. */
  lemma LabelsDiffer(i: int)
    requires 0 <= i < |TopicMap|
    ensures Bracket(TopicMap[i].name) != DefaultLabel
  {
    assert DefaultLabel[1] == 'Á';
    assert Bracket(TopicMap[i].name)[1] == TopicMap[i].name[0];
  }

  /** The label differs from `DEFAULT_LABEL` exactly when a keyword of
      `SPECIAL_KEYWORDS` occurs in the lower-cased text: this is why the
      hybrid chunker's special-keyword test and the tagger agree. */
  lemma NonDefaultIffSpecial(text: string)
    ensures DetectTopicLabel(text) != DefaultLabel
        <==> exists k :: k in SpecialKeywords && Contains(Lower(text), k)
  {
    var low := Lower(text);
    SpecialIffSomeEntry(low);
    if exists i :: 0 <= i < |TopicMap| && AnyKeyword(TopicMap[i].keywords, low) {
      var i :| 0 <= i < |TopicMap| && AnyKeyword(TopicMap[i].keywords, low);
      var f := FirstHitExists(TopicMap, low, i);
      DetectInFirstHit(TopicMap, low, f);
      LabelsDiffer(f);
    } else {
      DetectInNoHit(TopicMap, low);
    }
  }

  /** The labels `detect_topic_label` can return. */
  lemma DetectTopicLabelRange(text: string)
    ensures DetectTopicLabel(text) == DefaultLabel
         || exists i :: 0 <= i < |TopicMap| && DetectTopicLabel(text) == Bracket(TopicMap[i].name)
  {
    var low := Lower(text);
    if exists i :: 0 <= i < |TopicMap| && AnyKeyword(TopicMap[i].keywords, low) {
      var i :| 0 <= i < |TopicMap| && AnyKeyword(TopicMap[i].keywords, low);
      var f := FirstHitExists(TopicMap, low, i);
      DetectInFirstHit(TopicMap, low, f);
    } else {
      DetectInNoHit(TopicMap, low);
    }
  }

  /** A keyword at position `i` of `s` occurs in `s`. */
  lemma {:induction false} ContainsAt(s: string, k: string, i: nat)
    requires i <= |s| && k <= s[i..]
    ensures Contains(s, k)
    decreases i
  {
    if i > 0 {
      assert s[1..][i - 1..] == s[i..];
      ContainsAt(s[1..], k, i - 1);
    } else {
      assert s[0..] == s;
    }
  }

  /** Lower-casing the example text. */
  lemma LowerExample()
    ensures Lower("Invoice LOGIN") == "invoice login"
  {
    var s := "Invoice LOGIN";
    LowerPointwise(s);
    var r := Lower(s);
    forall k | 0 <= k < 13 ensures r[k] == "invoice login"[k] {
      assert r[k] == LowerChar(s[k]);
    }
  }

  /** "invoice login" holds a keyword of the login entry, at position 8,
      and one of the billing entry, at position 0. */
  lemma ExampleHits()
    ensures AnyKeyword(TopicMap[0].keywords, "invoice login")
    ensures AnyKeyword(TopicMap[1].keywords, "invoice login")
  {
    var low := "invoice login";
    assert low[8..] == "login";
    ContainsAt(low, "login", 8);
    assert TopicMap[0].keywords[3] == "login";
    assert low[0..] == "invoice login";
    ContainsAt(low, "invoice", 0);
    assert TopicMap[1].keywords[4] == "invoice";
  }

  /** Declaration order decides, not the order in the text: "invoice"
      comes first in the text and is a billing keyword, but the login
      entry is declared first. */
  lemma ExampleDeclarationOrder()
    ensures AnyKeyword(TopicMap[1].keywords, Lower("Invoice LOGIN"))
    ensures DetectTopicLabel("Invoice LOGIN") == Bracket(TopicMap[0].name)
  {
    LowerExample();
    ExampleHits();
    DetectInFirstHit(TopicMap, "invoice login", 0);
  }

  /** İ lowers to `i` and a combining dot, so "BELÉPNİ" holds the login
      keyword "belépni" once lower-cased. */
  lemma ExampleDottedCapitalI()
    ensures DetectTopicLabel("BELÉPNİ") == Bracket(TopicMap[0].name)
  {
    var head := "BELÉPN";
    LowerPointwise(head);
    assert Lower(head) == "belépn";
    assert Lower("İ") == "i\U{307}" by {
      assert "İ"[..0] == [];
    }
    assert head + "İ" == "BELÉPNİ";
    LowerConcat(head, "İ");
    var low := "belépni\U{307}";
    assert Lower("BELÉPNİ") == low;
    assert low[0..] == low && "belépni" <= low;
    ContainsAt(low, "belépni", 0);
    assert TopicMap[0].keywords[0] == "belépni";
    DetectInFirstHit(TopicMap, low, 0);
  }

  /** The Kelvin sign lowers to `k`, so "FIÓ" followed by it holds the
      login keyword "fiók" once lower-cased. */
  lemma ExampleKelvinSign()
    ensures DetectTopicLabel("FIÓ\U{212A}") == Bracket(TopicMap[0].name)
  {
    var s := "FIÓ\U{212A}";
    LowerPointwise(s);
    assert Lower(s) == "fiók";
    ContainsAt("fiók", "fiók", 0);
    assert TopicMap[0].keywords[2] == "fiók";
    DetectInFirstHit(TopicMap, "fiók", 0);
  }
}
