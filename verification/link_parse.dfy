/**
  Reading a `mailto:` link back: the address part is taken verbatim up to
  the first `?`, and the header fields after it are `&`-separated
  `name=value` pairs whose parts are percent-decoded.  Unlike a client
  following section 2 of RFC 6068, it neither percent-decodes the addresses
  nor ends the link at a `#`; it reads the addresses exactly as `getLink`
  writes them.  This reader is not part of the formatter; it is the inverse
  against which `GetLink` is checked.
 */
module LinkParse {
  import opened Wrappers
  import Text
  import Url
  import Formatter

  /** The address part, still comma-joined, and the decoded header fields as UTF-8 bytes. */
  datatype ParsedLink = ParsedLink(to: string, fields: seq<(seq<Url.byte>, seq<Url.byte>)>)

  /** The position of the first `c` in `s`, or `|s|` when there is none. */
  function IndexOfChar(s: string, c: char): (i: nat)
    ensures i <= |s|
    ensures forall j | 0 <= j < i :: s[j] != c
    ensures i < |s| ==> s[i] == c
    decreases |s|
  {
    if |s| == 0 then 0
    else if s[0] == c then 0
    else 1 + IndexOfChar(s[1..], c)
  }

  lemma {:induction false} IndexOfCharFirst(s: string, c: char, i: nat)
    requires i <= |s|
    requires forall j | 0 <= j < i :: s[j] != c
    requires i < |s| ==> s[i] == c
    ensures IndexOfChar(s, c) == i
    decreases |s|
  {
    if |s| > 0 && s[0] != c {
      IndexOfCharFirst(s[1..], c, i - 1);
    }
  }

  /** One `hfname=hfvalue` field, both halves percent-decoded. */
  function ParseField(p: string): (r: Option<(seq<Url.byte>, seq<Url.byte>)>)
  {
    var kv := Text.Split(p, '=');
    if |kv| != 2 then None
    else
      var k := Url.PercentDecode(kv[0]);
      var v := Url.PercentDecode(kv[1]);
      if k.Some? && v.Some? then Some((k.value, v.value)) else None
  }

  function ParseFields(ps: seq<string>): (r: Option<seq<(seq<Url.byte>, seq<Url.byte>)>>)
    ensures r.Some? ==> |r.value| == |ps|
    decreases |ps|
  {
    if |ps| == 0 then Some([])
    else
      var f := ParseField(ps[0]);
      var fs := ParseFields(ps[1..]);
      if f.Some? && fs.Some? then Some([f.value] + fs.value) else None
  }

  /** The parts of a `mailto:` link, or `None` when it is not one this reader accepts. */
  function ParseLink(link: string): (r: Option<ParsedLink>)
  {
    if |link| < 7 || link[..7] != "mailto:" then None
    else
      var rest := link[7..];
      var i := IndexOfChar(rest, '?');
      if i == |rest| then Some(ParsedLink(rest, []))
      else
        match ParseFields(Text.Split(rest[i + 1..], '&'))
        case None => None
        case Some(fs) => Some(ParsedLink(rest[..i], fs))
  }

  /** The parameters as the bytes PHP holds: each name and value in UTF-8. */
  function Utf8Pairs(params: seq<(string, string)>): (r: seq<(seq<Url.byte>, seq<Url.byte>)>)
    ensures |r| == |params|
  {
    seq(|params|, i requires 0 <= i < |params| => (Url.Utf8Encode(params[i].0), Url.Utf8Encode(params[i].1)))
  }

  /** An encoded pair is one `=` between two encoded components, neither holding `&` or `=`. */
  lemma EncodedPairShape(p: (string, string))
    ensures ParseField(Url.EncodePair(p)) == Some((Url.Utf8Encode(p.0), Url.Utf8Encode(p.1)))
  {
    var ek, ev := Url.RawUrlEncode(p.0), Url.RawUrlEncode(p.1);
    Url.NoDelimiters(p.0);
    Url.NoDelimiters(p.1);
    assert Text.Join([ek, ev], '=') == ek + ['='] + ev;
    Text.SplitJoin([ek, ev], '=');
    assert Text.Split(Url.EncodePair(p), '=') == [ek, ev];
    Url.DecodeRawUrlEncode(p.0);
    Url.DecodeRawUrlEncode(p.1);
  }

  /** Fields that each parse make a list that parses, element by element. */
  lemma {:induction false} ParseFieldsEach(ps: seq<string>, fs: seq<(seq<Url.byte>, seq<Url.byte>)>)
    requires |ps| == |fs|
    requires forall i | 0 <= i < |ps| :: ParseField(ps[i]) == Some(fs[i])
    ensures ParseFields(ps) == Some(fs)
    decreases |ps|
  {
    if |ps| > 0 {
      ParseFieldsEach(ps[1..], fs[1..]);
      assert [fs[0]] + fs[1..] == fs;
    }
  }

  lemma ParseEncodedPairs(params: seq<(string, string)>)
    ensures ParseFields(Url.EncodePairs(params)) == Some(Utf8Pairs(params))
  {
    var ps := Url.EncodePairs(params);
    var fs := Utf8Pairs(params);
    forall i | 0 <= i < |ps| ensures ParseField(ps[i]) == Some(fs[i]) {
      EncodedPairShape(params[i]);
    }
    ParseFieldsEach(ps, fs);
  }

  /** The query string of a non-empty parameter list reads back as the parameters' bytes. */
  lemma ParseQuery(params: seq<(string, string)>)
    requires |params| > 0
    ensures ParseFields(Text.Split(Url.BuildQuery(params), '&')) == Some(Utf8Pairs(params))
  {
    var pairs := Url.EncodePairs(params);
    forall i | 0 <= i < |pairs| ensures '&' !in pairs[i] {
      Url.EncodePairChars(params[i]);
    }
    Text.SplitJoin(pairs, '&');
    ParseEncodedPairs(params);
  }

  /** The address part of a link without query runs to the end. */
  lemma ParseWithoutQuery(to: string)
    requires '?' !in to
    ensures ParseLink("mailto:" + to) == Some(ParsedLink(to, []))
  {
    var link := "mailto:" + to;
    assert link[..7] == "mailto:";
    assert link[7..] == to;
    IndexOfCharFirst(to, '?', |to|);
  }

  /** The address part of a link with a query runs to the first `?`, which starts the query. */
  lemma ParseSplitsAtQuestionMark(to: string, q: string)
    requires '?' !in to
    ensures var fs := ParseFields(Text.Split(q, '&'));
      ParseLink("mailto:" + to + "?" + q) == if fs.Some? then Some(ParsedLink(to, fs.value)) else None
  {
    var link := "mailto:" + to + "?" + q;
    assert link[..7] == "mailto:";
    var rest := link[7..];
    assert rest == to + "?" + q;
    IndexOfCharFirst(rest, '?', |to|);
    assert rest[..|to|] == to;
    assert rest[|to| + 1..] == q;
  }

  lemma ParseWithQuery(to: string, params: seq<(string, string)>)
    requires '?' !in to && |params| > 0
    ensures ParseLink("mailto:" + to + "?" + Url.BuildQuery(params)) == Some(ParsedLink(to, Utf8Pairs(params)))
  {
    ParseSplitsAtQuestionMark(to, Url.BuildQuery(params));
    ParseQuery(params);
  }

  /** Reading back `mailto:`, an address part without `?`, and the query of `params` when there is one. */
  lemma ParseRendered(to: string, params: seq<(string, string)>)
    requires '?' !in to
    ensures ParseLink("mailto:" + to + (if |params| == 0 then "" else "?" + Url.BuildQuery(params))) ==
      Some(ParsedLink(to, Utf8Pairs(params)))
  {
    if |params| == 0 {
      assert "mailto:" + to + "" == "mailto:" + to;
      ParseWithoutQuery(to);
    } else {
      assert "mailto:" + to + ("?" + Url.BuildQuery(params)) == "mailto:" + to + "?" + Url.BuildQuery(params);
      ParseWithQuery(to, params);
    }
  }

  /**
    When no recipient holds a `?`, reading the link back gives the
    comma-joined recipients and, in order, every parameter's name and value
    as UTF-8 bytes: the link loses nothing.
   */
  lemma ParseGetLink(m: Formatter.MailTo)
    requires forall i | 0 <= i < |m.recipients| :: '?' !in m.recipients[i]
    ensures ParseLink(Formatter.GetLink(m)) ==
      Some(ParsedLink(Text.Join(m.recipients, ','), Utf8Pairs(Formatter.Parameters(m))))
  {
    var to := Text.Join(m.recipients, ',');
    Text.NotInJoin(m.recipients, ',', '?');
    ParseRendered(to, Formatter.Parameters(m));
  }

  /**
    In a valid state with at least one recipient, the address part read back
    explodes into exactly the stored recipients.
   */
  lemma RecipientsFromLink(m: Formatter.MailTo)
    requires Formatter.Valid(m) && |m.recipients| >= 1
    requires forall i | 0 <= i < |m.recipients| :: '?' !in m.recipients[i]
    ensures ParseLink(Formatter.GetLink(m)).Some?
    ensures Text.Split(ParseLink(Formatter.GetLink(m)).value.to, ',') == m.recipients
  {
    ParseGetLink(m);
    Formatter.ValidRecipientsHaveNoComma(m);
    Text.SplitJoin(m.recipients, ',');
  }
}
