/**
 * `event_commitment`: the exact text whose SHA-256 digest is an event's identifier,
 * `[0,"<pubkey>",<created_at>,<kind>,<tags>,<content>]` with no whitespace.
 */
module Commitment {
  import opened Results
  import opened Decimal
  import opened Externals

  /** The commitment's fixed opening: the array bracket, the preamble value 0, and the key's opening quote. */
  const Preamble: string := "[0,\""

  /** Characters the template itself contributes: brackets, commas, quotes and decimal numbers. */
  predicate IsTemplateChar(ch: char) {
    ch == '[' || ch == ']' || ch == ',' || ch == '"' || ch == '-' || IsDigit(ch)
  }

  /**
   * The template with its five holes filled by already rendered text. The concatenation
   * is nested to the right so that each suffix is a term of its own, where the parse
   * lemmas split the text.
   */
  function Template(pubkey: string, createdAt: string, kind: string, tags: string, content: string): string {
    Preamble + (pubkey + ("\"," + (createdAt + ("," + (kind + ("," + (tags + ("," + (content + "]")))))))))
  }

  /**
   * `event_commitment(ev, tags)`: the public key spliced in verbatim between quotes, the
   * timestamp and kind in decimal, the already encoded tags, and the JSON-encoded content.
   */
  function EventCommitment(p: Platform, pubkey: string, createdAt: int64, kind: int64, content: string, tags: string): (c: string)
    ensures |c| > |Preamble| + |pubkey| && c[..|Preamble|] == Preamble
    ensures c[|Preamble|..|Preamble| + |pubkey|] == pubkey && c[|Preamble| + |pubkey|] == '"'
    ensures c[|c| - 1] == ']'
    ensures forall ch :: ch in c ==> IsTemplateChar(ch) || ch in pubkey || ch in tags || ch in p.encodeString(content)
  {
    var t := IntToDecimal(createdAt as int);
    var k := IntToDecimal(kind as int);
    var body := p.encodeString(content);
    DecimalChars(createdAt as int);
    DecimalChars(kind as int);
    TemplateAlphabet(pubkey, t, k, tags, body);
    TemplateFront(pubkey, t, k, tags, body);
    Template(pubkey, t, k, tags, body)
  }

  lemma DecimalChars(n: int)
    ensures forall ch :: ch in IntToDecimal(n) ==> ch == '-' || IsDigit(ch)
    ensures ',' !in IntToDecimal(n)
  {
    var s := IntToDecimal(n);
    forall ch | ch in s
      ensures ch == '-' || IsDigit(ch)
    {
      var i :| 0 <= i < |s| && s[i] == ch;
      if n < 0 && i > 0 {
        assert s[i] == s[1..][i - 1];
      }
    }
  }

  /** The characters of a template instance whose numbers are decimal texts. */
  lemma TemplateAlphabet(pubkey: string, t: string, k: string, tags: string, body: string)
    requires forall ch :: ch in t ==> ch == '-' || IsDigit(ch)
    requires forall ch :: ch in k ==> ch == '-' || IsDigit(ch)
    ensures forall ch :: ch in Template(pubkey, t, k, tags, body) ==>
              IsTemplateChar(ch) || ch in pubkey || ch in tags || ch in body
  {
    forall ch | ch in Template(pubkey, t, k, tags, body)
      ensures IsTemplateChar(ch) || ch in pubkey || ch in tags || ch in body
    {
      if ch in Preamble || ch in "\"," || ch in "]" {
        assert IsTemplateChar(ch);
      }
    }
  }

  lemma TemplateFront(pubkey: string, t: string, k: string, tags: string, body: string)
    ensures var c := Template(pubkey, t, k, tags, body);
      |c| > |Preamble| + |pubkey| && c[..|Preamble|] == Preamble
      && c[|Preamble|..|Preamble| + |pubkey|] == pubkey && c[|Preamble| + |pubkey|] == '"'
      && c[|c| - 1] == ']'
  {
    var rest := "\"," + (t + ("," + (k + ("," + (tags + ("," + (body + "]")))))));
    var c := Template(pubkey, t, k, tags, body);
    assert c == Preamble + (pubkey + rest);
    assert c[|Preamble|..] == pubkey + rest;
    assert (pubkey + rest)[..|pubkey|] == pubkey;
  }

  /** The first occurrence of `ch` in `s` at or after `from`. */
  function IndexOf(s: string, ch: char, from: nat): (r: Option<nat>)
    ensures r.Some? ==> from <= r.value < |s| && s[r.value] == ch
    ensures r.Some? ==> forall k :: from <= k < r.value ==> s[k] != ch
    ensures r.None? ==> forall k :: from <= k < |s| ==> s[k] != ch
    decreases |s| - from
  {
    if from >= |s| then None
    else if s[from] == ch then Some(from)
    else IndexOf(s, ch, from + 1)
  }

  /** What can be read back from the front of a commitment. */
  datatype Header = Header(pubkey: string, createdAt: int, kind: int, rest: string)

  /** A decimal number terminated by a comma, and the text after that comma. */
  function ParseField(s: string): Option<(int, string)> {
    match IndexOf(s, ',', 0)
    case None => None
    case Some(i) =>
      match ParseDecimal(s[..i])
      case None => None
      case Some(v) => Some((v, s[i + 1..]))
  }

  /**
   * Reads the preamble, a public key up to the next quote, a comma, then two
   * comma-terminated decimal numbers; the remainder is returned unread.
   */
  function ParseHeader(c: string): Option<Header> {
    if |c| < |Preamble| || c[..|Preamble|] != Preamble then None
    else ParseKeyAndNumbers(c[|Preamble|..])
  }

  function ParseKeyAndNumbers(s: string): Option<Header> {
    match IndexOf(s, '"', 0)
    case None => None
    case Some(q) =>
      if q + 1 >= |s| || s[q + 1] != ',' then None
      else match ParseField(s[q + 2..])
        case None => None
        case Some((t, r)) =>
          match ParseField(r)
          case None => None
          case Some((k, rest)) => Some(Header(s[..q], t, k, rest))
  }

  /**
   * For a public key without a quote character (real keys are 64 hex digits), the
   * commitment's front reads back as exactly the key, the timestamp and the kind.
   */
  lemma ParseCommitmentHeader(p: Platform, pubkey: string, createdAt: int64, kind: int64, content: string, tags: string)
    requires '"' !in pubkey
    ensures ParseHeader(EventCommitment(p, pubkey, createdAt, kind, content, tags))
         == Some(Header(pubkey, createdAt as int, kind as int, tags + ("," + (p.encodeString(content) + "]"))))
  {
    var t := IntToDecimal(createdAt as int);
    var k := IntToDecimal(kind as int);
    DecimalChars(createdAt as int);
    DecimalChars(kind as int);
    ParseIntToDecimal(createdAt as int);
    ParseIntToDecimal(kind as int);
    ParseTemplate(pubkey, t, k, tags, p.encodeString(content));
  }

  /**
   * For any key, quotes included: the key's length locates the closing quote and the comma
   * after it, and the two fields from there read back as the exact timestamp and kind,
   * followed by `<tags>,<content>]`.
   */
  lemma CommitmentFieldsAfterKey(p: Platform, pubkey: string, createdAt: int64, kind: int64, content: string, tags: string)
    ensures var c := EventCommitment(p, pubkey, createdAt, kind, content, tags);
            var n := |Preamble| + |pubkey|;
            n + 2 <= |c| && c[n] == '"' && c[n + 1] == ','
            && ParseField(c[n + 2..]).Some? && ParseField(c[n + 2..]).value.0 == createdAt as int
            && ParseField(ParseField(c[n + 2..]).value.1)
               == Some((kind as int, tags + ("," + (p.encodeString(content) + "]"))))
  {
    var t := IntToDecimal(createdAt as int);
    var k := IntToDecimal(kind as int);
    var rest := tags + ("," + (p.encodeString(content) + "]"));
    var c := EventCommitment(p, pubkey, createdAt, kind, content, tags);
    var n := |Preamble| + |pubkey|;
    DecimalChars(createdAt as int);
    DecimalChars(kind as int);
    ParseIntToDecimal(createdAt as int);
    ParseIntToDecimal(kind as int);
    assert c == (Preamble + pubkey) + ("\"," + (t + ("," + (k + ("," + rest)))));
    assert c[n + 2..] == t + ("," + (k + ("," + rest)));
    ParseFieldOf(t, k + ("," + rest));
    ParseFieldOf(k, rest);
  }

  /** The parser reads an instance of the template back into its parts. */
  lemma ParseTemplate(pubkey: string, t: string, k: string, tags: string, body: string)
    requires '"' !in pubkey && ',' !in t && ',' !in k
    requires ParseDecimal(t).Some? && ParseDecimal(k).Some?
    ensures ParseHeader(Template(pubkey, t, k, tags, body))
         == Some(Header(pubkey, ParseDecimal(t).value, ParseDecimal(k).value, tags + ("," + (body + "]"))))
  {
    var rest := tags + ("," + (body + "]"));
    var afterKey := t + ("," + (k + ("," + rest)));
    var s := pubkey + ("\"," + afterKey);
    var c := Template(pubkey, t, k, tags, body);
    assert c == Preamble + s;
    assert c[..|Preamble|] == Preamble && c[|Preamble|..] == s;
    ParseKeyAndNumbersOf(pubkey, t, k, rest);
  }

  lemma ParseKeyAndNumbersOf(pubkey: string, t: string, k: string, rest: string)
    requires '"' !in pubkey && ',' !in t && ',' !in k
    requires ParseDecimal(t).Some? && ParseDecimal(k).Some?
    ensures ParseKeyAndNumbers(pubkey + ("\"," + (t + ("," + (k + ("," + rest))))))
         == Some(Header(pubkey, ParseDecimal(t).value, ParseDecimal(k).value, rest))
  {
    var afterKey := t + ("," + (k + ("," + rest)));
    var s := pubkey + ("\"," + afterKey);
    FirstAt(pubkey, '"', "\",", afterKey);
    assert s[|pubkey| + 1] == ',';
    assert s[|pubkey| + 2..] == afterKey;
    ParseFieldOf(t, k + ("," + rest));
    ParseFieldOf(k, rest);
  }

  lemma ParseFieldOf(t: string, rest: string)
    requires ',' !in t && ParseDecimal(t).Some?
    ensures ParseField(t + ("," + rest)) == Some((ParseDecimal(t).value, rest))
  {
    FirstAt(t, ',', ",", rest);
    assert (t + ("," + rest))[|t| + 1..] == rest;
  }

  /** In `a + (sep + b)` where `sep` starts with `ch` and `a` holds none, the first `ch` is the separator. */
  lemma FirstAt(a: string, ch: char, sep: string, b: string)
    requires ch !in a && |sep| >= 1 && sep[0] == ch
    ensures IndexOf(a + (sep + b), ch, 0) == Some(|a|)
    ensures (a + (sep + b))[..|a|] == a
    ensures (a + (sep + b))[|a|..] == sep + b
  {
    var s := a + (sep + b);
    forall i | 0 <= i < |a|
      ensures s[i] != ch
    {
      assert s[i] == a[i] && a[i] in a;
    }
    assert s[|a|] == ch;
  }

  /** A field the parser accepts is the rendering of its value followed by a comma. */
  lemma ParseFieldSound(s: string)
    ensures ParseField(s).Some? ==> s == IntToDecimal(ParseField(s).value.0) + ("," + ParseField(s).value.1)
  {
    if ParseField(s).Some? {
      var i := IndexOf(s, ',', 0).value;
      ParseDecimalIffRendering(s[..i], ParseField(s).value.0);
      assert s == s[..i] + ("," + s[i + 1..]);
    }
  }

  /**
   * Everything the parser accepts is an instance of the template: a quote-free key
   * and the canonical renderings of the two numbers, so no other text reads as the same header.
   */
  lemma ParseHeaderSound(c: string)
    ensures ParseHeader(c).Some? ==>
              var h := ParseHeader(c).value;
              '"' !in h.pubkey
              && c == Preamble + (h.pubkey + ("\"," + (IntToDecimal(h.createdAt) + ("," + (IntToDecimal(h.kind) + ("," + h.rest))))))
  {
    if ParseHeader(c).Some? {
      ParseKeyAndNumbersSound(c[|Preamble|..]);
      assert c == c[..|Preamble|] + c[|Preamble|..];
    }
  }

  lemma ParseKeyAndNumbersSound(s: string)
    ensures ParseKeyAndNumbers(s).Some? ==>
              var h := ParseKeyAndNumbers(s).value;
              '"' !in h.pubkey
              && s == h.pubkey + ("\"," + (IntToDecimal(h.createdAt) + ("," + (IntToDecimal(h.kind) + ("," + h.rest)))))
  {
    if ParseKeyAndNumbers(s).Some? {
      var h := ParseKeyAndNumbers(s).value;
      var q := IndexOf(s, '"', 0).value;
      var f1 := ParseField(s[q + 2..]).value;
      var f2 := ParseField(f1.1).value;
      assert h == Header(s[..q], f1.0, f2.0, f2.1);
      TwoFieldsSound(s[q + 2..]);
      QuoteFreePrefix(s, q);
      SplitAtQuoteComma(s, q);
    }
  }

  lemma TwoFieldsSound(s: string)
    ensures ParseField(s).Some? && ParseField(ParseField(s).value.1).Some? ==>
              var (t, r) := ParseField(s).value;
              var (k, rest) := ParseField(r).value;
              s == IntToDecimal(t) + ("," + (IntToDecimal(k) + ("," + rest)))
  {
    ParseFieldSound(s);
    if ParseField(s).Some? {
      ParseFieldSound(ParseField(s).value.1);
    }
  }

  lemma SplitAtQuoteComma(s: string, q: nat)
    requires q + 2 <= |s| && s[q] == '"' && s[q + 1] == ','
    ensures s == s[..q] + ("\"," + s[q + 2..])
  {
  }

  lemma QuoteFreePrefix(s: string, q: nat)
    requires q <= |s|
    requires forall k :: 0 <= k < q ==> s[k] != '"'
    ensures '"' !in s[..q]
  {
    forall j | 0 <= j < q
      ensures s[..q][j] != '"'
    {
    }
  }

  /** Equal commitments of quote-free keys agree on key, timestamp, kind and the encoded remainder. */
  lemma CommitmentDeterminesHeader(p: Platform, pk1: string, t1: int64, k1: int64, c1: string, g1: string,
                                   pk2: string, t2: int64, k2: int64, c2: string, g2: string)
    requires '"' !in pk1 && '"' !in pk2
    ensures EventCommitment(p, pk1, t1, k1, c1, g1) == EventCommitment(p, pk2, t2, k2, c2, g2) ==>
              pk1 == pk2 && t1 == t2 && k1 == k2
              && g1 + ("," + (p.encodeString(c1) + "]")) == g2 + ("," + (p.encodeString(c2) + "]"))
  {
    ParseCommitmentHeader(p, pk1, t1, k1, c1, g1);
    ParseCommitmentHeader(p, pk2, t2, k2, c2, g2);
  }

  /**
   * An example: key `abc`, time 1000000000, kind 1, no tags, content `hi`,
   * with the encoder rendering `[]` and `"hi"`, gives `[0,"abc",1000000000,1,[],"hi"]`.
   */
  lemma CommitmentExample(p: Platform)
    requires p.encodeTags([]) == "[]" && p.encodeString("hi") == "\"hi\""
    ensures EventCommitment(p, "abc", 1000000000, 1, "hi", p.encodeTags([])) == "[0,\"abc\",1000000000,1,[],\"hi\"]"
  {
    BillionDecimal();
    assert IntToDecimal(1) == "1";
    assert EventCommitment(p, "abc", 1000000000, 1, "hi", p.encodeTags([])) == Template("abc", "1000000000", "1", "[]", "\"hi\"");
    TemplateExample();
  }

  lemma TemplateExample()
    ensures Template("abc", "1000000000", "1", "[]", "\"hi\"") == "[0,\"abc\",1000000000,1,[],\"hi\"]"
  {
  }

  /** Ten digits of unfolding, one rendering step per power of ten so that each step stays small. */
  lemma BillionDecimal()
    ensures IntToDecimal(1000000000) == "1000000000"
  {
    assert NatToDecimal(1) == "1";
    assert NatToDecimal(10) == "10";
    assert NatToDecimal(100) == "100";
    assert NatToDecimal(1000) == "1000";
    assert NatToDecimal(10000) == "10000";
    assert NatToDecimal(100000) == "100000";
    assert NatToDecimal(1000000) == "1000000";
    assert NatToDecimal(10000000) == "10000000";
    assert NatToDecimal(100000000) == "100000000";
    assert NatToDecimal(1000000000) == "1000000000";
  }
}
