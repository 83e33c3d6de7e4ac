/**
  The scenarios the repository's test suite checks, stated as lemmas about
  the model.  Where a test's particular strings do not matter the lemma is
  stated for every string of the same kind (every clean address, every
  trimmed value), and the test's own strings are instances of it; the
  percent-encodings the tests spell out are proved separately.  The last
  section shows that recipients holding `?` or `%`, which the sanitiser
  keeps and `getLink` does not encode, make a link ambiguous or misread.
 */
module Examples {
  import opened Wrappers
  import Text
  import OrderedMap
  import Url
  import Formatter

  // ---------------------------------------------------------------------------
  // sanitizeEmail

  /** An address made only of allowed characters is its own sanitised form. */
  lemma Clean(s: string)
    requires forall i | 0 <= i < |s| :: Formatter.IsEmailChar(s[i])
    ensures Formatter.SanitizeEmail(s) == s
  {
    Formatter.SanitizeFixedPoint(s);
  }

  /** A clean address passes the sanitiser unchanged (`test@example.com`). */
  lemma SanitizeKeepsCleanAddress()
    ensures Formatter.SanitizeEmail("test@example.com") == "test@example.com"
  {
    var s := "test@example.com";
    assert forall i | 0 <= i < |s| :: Formatter.IsEmailChar(s[i]);
    Clean(s);
  }

  /** Characters the sanitiser deletes between two parts leave just the parts' sanitised forms. */
  lemma DropBetween(a: string, junk: string, b: string)
    requires Formatter.SanitizeEmail(junk) == ""
    ensures Formatter.SanitizeEmail(a + junk + b) == Formatter.SanitizeEmail(a) + Formatter.SanitizeEmail(b)
  {
    Formatter.SanitizeConcat(junk, b);
    Formatter.SanitizeConcat(a, junk + b);
    assert a + junk + b == a + (junk + b);
  }

  /** Parentheses between a clean local part and a clean domain are deleted (`test()@example.com`). */
  lemma SanitizeDropsParentheses(local: string, domain: string)
    requires Formatter.SanitizeEmail(local) == local && Formatter.SanitizeEmail(domain) == domain
    ensures Formatter.SanitizeEmail(local + "()" + domain) == local + domain
  {
    assert Formatter.SanitizeEmail("()") == "";
    DropBetween(local, "()", domain);
  }

  /** Characters the sanitiser deletes on both sides are gone. */
  lemma DropAround(pad: string, x: string)
    requires Formatter.SanitizeEmail(pad) == ""
    ensures Formatter.SanitizeEmail(pad + x + pad) == Formatter.SanitizeEmail(x)
  {
    Formatter.SanitizeConcat(pad + x, pad);
    Formatter.SanitizeConcat(pad, x);
  }

  /** A backslash is deleted. */
  lemma DropBackslash(a: string, b: string)
    ensures Formatter.SanitizeEmail(a + "\\" + b) == Formatter.SanitizeEmail(a) + Formatter.SanitizeEmail(b)
  {
    assert Formatter.SanitizeEmail("\\") == "";
    Formatter.SanitizeConcat(a + "\\", b);
    Formatter.SanitizeConcat(a, "\\");
  }

  // Regroup, Regroup5, RegroupPairs, NameLiteral, SubjectCcLiterals and
  // BodyLiteral state no property of the model: each only re-brackets a
  // string concatenation, so that the larger lemmas here can use them as
  // single steps and stay cheap to verify.

  lemma Regroup(p: string, a: string, x: string, b: string, q: string)
    ensures p + a + x + b + q == p + (a + x + b) + q
  {
  }

  /** Surrounding spaces and a backslash inside are deleted (`  test@example\.com  `). */
  lemma SanitizeDropsSpacesAndBackslash(a: string, b: string)
    requires Formatter.SanitizeEmail(a) == a && Formatter.SanitizeEmail(b) == b
    ensures Formatter.SanitizeEmail("  " + a + "\\" + b + "  ") == a + b
  {
    assert Formatter.SanitizeEmail("  ") == "";
    DropBackslash(a, b);
    DropAround("  ", a + "\\" + b);
    Regroup("  ", a, "\\", b, "  ");
  }

  // ---------------------------------------------------------------------------
  // setRecipients

  /** A single clean address given as a string becomes the one recipient. */
  lemma SingleRecipient(addr: string)
    requires Formatter.SanitizeEmail(addr) == addr
    ensures Formatter.SetRecipients(Formatter.Empty, Formatter.Str(addr)).recipients == [addr]
  {
    Formatter.SanitizedHasNoComma(addr);
    Text.SplitNoSep(addr, ',');
  }

  /** A list of clean addresses is stored as given. */
  lemma RecipientsFromList(xs: seq<string>)
    requires forall i | 0 <= i < |xs| :: Formatter.SanitizeEmail(xs[i]) == xs[i]
    ensures Formatter.SetRecipients(Formatter.Empty, Formatter.List(xs)).recipients == xs
  {
  }

  lemma DropLeadingSpace(b: string)
    ensures Formatter.SanitizeEmail(" " + b) == Formatter.SanitizeEmail(b)
  {
    assert Formatter.SanitizeEmail(" ") == "";
    Formatter.SanitizeConcat(" ", b);
  }

  /** `a, b` explodes into `a` and ` b` when neither holds a comma. */
  lemma SplitCommaSpace(a: string, b: string)
    requires ',' !in a && ',' !in b
    ensures Text.Split(a + ", " + b, ',') == [a, " " + b]
  {
    assert ',' !in " " + b;
    Text.JoinTwo(a, " " + b, ',');
    assert a + [','] + (" " + b) == a + ", " + b;
    Text.SplitJoin([a, " " + b], ',');
  }

  /**
    `foo@example.com, bar@example.com` is exploded on the comma and the
    space before the second address is sanitised away.
   */
  lemma RecipientsFromCommaString(a: string, b: string)
    requires Formatter.SanitizeEmail(a) == a && Formatter.SanitizeEmail(b) == b
    ensures Formatter.SetRecipients(Formatter.Empty, Formatter.Str(a + ", " + b)).recipients == [a, b]
  {
    Formatter.SanitizedHasNoComma(a);
    Formatter.SanitizedHasNoComma(b);
    SplitCommaSpace(a, b);
    DropLeadingSpace(b);
  }

  lemma SpacedAddressClean(a: string, b: string)
    requires Formatter.SanitizeEmail(a) == a && Formatter.SanitizeEmail(b) == b
    ensures Formatter.SanitizeEmail(" " + a + " " + b + " ") == a + b
  {
    assert Formatter.SanitizeEmail(" ") == "";
    DropBetween(a, " ", b);
    DropAround(" ", a + " " + b);
    Regroup(" ", a, " ", b, " ");
  }

  /** Spaces around and inside one address given as a string are sanitised away (` test @example.com `). */
  lemma RecipientWithSpaces(a: string, b: string)
    requires Formatter.SanitizeEmail(a) == a && Formatter.SanitizeEmail(b) == b
    ensures Formatter.SetRecipients(Formatter.Empty, Formatter.Str(" " + a + " " + b + " ")).recipients == [a + b]
  {
    var s := " " + a + " " + b + " ";
    Formatter.SanitizedHasNoComma(a);
    Formatter.SanitizedHasNoComma(b);
    assert ',' !in s;
    Text.SplitNoSep(s, ',');
    SpacedAddressClean(a, b);
  }

  // ---------------------------------------------------------------------------
  // setHeader and setBody

  lemma SubjectLowerCase()
    ensures Text.ToLower("subject") == "subject"
  {
  }

  /** A subject is stored as given, commas and all (`My subject, now with commas`). */
  lemma SubjectFirst(subject: string)
    ensures Formatter.SetHeader(Formatter.Empty, "subject", Formatter.Str(subject)).headers == [("subject", Formatter.Str(subject))]
  {
    SubjectLowerCase();
    OrderedMap.PutNew([], "subject", Formatter.Str(subject));
  }

  /** ... and read back as given. */
  lemma SubjectIsNotSplit(subject: string)
    ensures Formatter.GetHeader(Formatter.SetHeader(Formatter.Empty, "subject", Formatter.Str(subject)), "subject", None)
      == Some(Formatter.Str(subject))
  {
    SubjectLowerCase();
    Formatter.GetHeaderAfterSet(Formatter.Empty, "subject", Formatter.Str(subject), None);
  }

  /** The name `Header` is stored as `header`. */
  lemma HeaderLowerCased()
    ensures Text.ToLower("Header") == "header"
  {
  }

  /** Any other header given one trimmed, comma-free string holds a one-item list (`Header: Value`). */
  lemma HeaderValueSplit(key: string, v: string)
    requires Text.ToLower(key) != "subject"
    requires Text.Trim(v) == v && ',' !in v
    ensures Formatter.SetHeader(Formatter.Empty, key, Formatter.Str(v)).headers
      == [(Text.ToLower(key), Formatter.List([v]))]
  {
    Text.SplitNoSep(v, ',');
    var k := Text.ToLower(key);
    assert Formatter.Normalize(k, Formatter.Str(v)) == Formatter.List([v]);
    OrderedMap.PutNew([], k, Formatter.List([v]));
  }

  lemma TrimLeadingSpace(b: string)
    requires Text.IsTrimmed(b)
    ensures Text.Trim(" " + b) == b
  {
    Text.TrimOfPadded(" ", b, "");
    assert " " + b + "" == " " + b;
  }

  /** `cc: foo@example.com, bar@example.com` becomes the list of the two trimmed addresses. */
  lemma CommaSeparatedHeader(key: string, a: string, b: string)
    requires Text.ToLower(key) != "subject"
    requires Text.IsTrimmed(a) && Text.IsTrimmed(b) && ',' !in a && ',' !in b
    ensures Formatter.Normalize(Text.ToLower(key), Formatter.Str(a + ", " + b)) == Formatter.List([a, b])
  {
    SplitCommaSpace(a, b);
    TrimLeadingSpace(b);
    Text.TrimFixedPoint(a);
  }

  /** Two leading spaces and a trailing newline are trimmed off any body that has no trim character at its ends. */
  lemma BodyIsTrimmed(m: Formatter.MailTo, b: string)
    requires Text.IsTrimmed(b)
    ensures Formatter.SetBody(m, "  " + b + "\n").body == b
  {
    Text.TrimOfPadded("  ", b, "\n");
  }

  // ---------------------------------------------------------------------------
  // Queries of one and two parameters

  lemma QueryOfOne(k: string, v: string)
    ensures Url.BuildQuery([(k, v)]) == Url.RawUrlEncode(k) + "=" + Url.RawUrlEncode(v)
  {
    assert Url.EncodePairs([(k, v)]) == [Url.EncodePair((k, v))];
  }

  lemma QueryOfOneName(k: string, v: string)
    requires forall i | 0 <= i < |k| :: Url.IsUnreserved(k[i])
    ensures Url.BuildQuery([(k, v)]) == (k + "=") + Url.RawUrlEncode(v)
  {
    QueryOfOne(k, v);
  }

  /** A re-bracketing step (see the note at `Regroup`). */
  lemma Regroup5(a: string, b: string, c: string, d: string, e: string)
    ensures a + b + c + d + e == a + b + (c + d + e)
  {
  }

  lemma PairsOfTwo(k1: string, v1: string, k2: string, v2: string)
    ensures Url.EncodePairs([(k1, v1), (k2, v2)]) == [Url.EncodePair((k1, v1)), Url.EncodePair((k2, v2))]
  {
    var ps := Url.EncodePairs([(k1, v1), (k2, v2)]);
    assert |ps| == 2;
    assert ps[0] == Url.EncodePair((k1, v1));
    assert ps[1] == Url.EncodePair((k2, v2));
  }

  lemma QueryOfTwo(k1: string, v1: string, k2: string, v2: string)
    ensures Url.BuildQuery([(k1, v1), (k2, v2)])
      == Url.RawUrlEncode(k1) + "=" + Url.RawUrlEncode(v1) + "&" + Url.RawUrlEncode(k2) + "=" + Url.RawUrlEncode(v2)
  {
    var p1, p2 := Url.EncodePair((k1, v1)), Url.EncodePair((k2, v2));
    PairsOfTwo(k1, v1, k2, v2);
    Text.JoinTwo(p1, p2, '&');
    Regroup5(Url.RawUrlEncode(k1) + "=" + Url.RawUrlEncode(v1), "&", Url.RawUrlEncode(k2), "=", Url.RawUrlEncode(v2));
  }

  lemma QueryOfTwoNames(k1: string, v1: string, k2: string, v2: string)
    requires forall i | 0 <= i < |k1| :: Url.IsUnreserved(k1[i])
    requires forall i | 0 <= i < |k2| :: Url.IsUnreserved(k2[i])
    ensures Url.BuildQuery([(k1, v1), (k2, v2)])
      == (k1 + "=") + Url.RawUrlEncode(v1) + ("&" + k2 + "=") + Url.RawUrlEncode(v2)
  {
    QueryOfTwo(k1, v1, k2, v2);
    NameEncodesToItself(k1);
    NameEncodesToItself(k2);
    RegroupPairs(k1, Url.RawUrlEncode(v1), k2, Url.RawUrlEncode(v2));
  }

  lemma NameEncodesToItself(k: string)
    requires forall i | 0 <= i < |k| :: Url.IsUnreserved(k[i])
    ensures Url.RawUrlEncode(k) == k
  {
  }

  /** A re-bracketing step (see the note at `Regroup`). */
  lemma RegroupPairs(a: string, b: string, c: string, d: string)
    ensures a + "=" + b + "&" + c + "=" + d == (a + "=") + b + ("&" + c + "=") + d
  {
  }

  // SubjectUnreserved, CcUnreserved and BodyUnreserved (like MyUnreserved and
  // SubjectWordUnreserved below) only state that a literal name is made of
  // unreserved characters, so that the lemmas using them stay cheap to verify.
  lemma SubjectUnreserved() ensures forall i | 0 <= i < |"subject"| :: Url.IsUnreserved("subject"[i]) {}
  lemma CcUnreserved() ensures forall i | 0 <= i < |"cc"| :: Url.IsUnreserved("cc"[i]) {}
  lemma BodyUnreserved() ensures forall i | 0 <= i < |"body"| :: Url.IsUnreserved("body"[i]) {}

  /** A re-bracketing step (see the note at `Regroup`). */
  lemma NameLiteral(name: string, x: string)
    ensures (name + "=") + x == name + "=" + x
  {
  }

  /** The link of a state with one recipient and exactly one parameter. */
  lemma LinkOfOneParameter(m: Formatter.MailTo, addr: string, k: string, v: string)
    requires m.recipients == [addr]
    requires Formatter.Parameters(m) == [(k, v)]
    requires forall i | 0 <= i < |k| :: Url.IsUnreserved(k[i])
    ensures Formatter.GetLink(m) == "mailto:" + addr + "?" + (k + "=" + Url.RawUrlEncode(v))
  {
    assert Text.Join([addr], ',') == addr;
    QueryOfOneName(k, v);
    NameLiteral(k, Url.RawUrlEncode(v));
  }

  // ---------------------------------------------------------------------------
  // getLink

  lemma NoHeadersNoBody(recipients: Formatter.Value)
    ensures var m := Formatter.New(recipients, [], "");
      m.headers == [] && m.body == ""
  {
    Text.TrimFixedPoint("");
  }

  /** Clean recipients and nothing else: the comma-joined addresses with no `?`. */
  lemma LinkWithRecipients(xs: seq<string>)
    requires forall i | 0 <= i < |xs| :: Formatter.SanitizeEmail(xs[i]) == xs[i]
    ensures Formatter.GetLink(Formatter.New(Formatter.List(xs), [], "")) == "mailto:" + Text.Join(xs, ',')
  {
    var m := Formatter.New(Formatter.List(xs), [], "");
    NoHeadersNoBody(Formatter.List(xs));
    assert m.recipients == xs;
  }

  /** One clean recipient given as a string and nothing else. */
  lemma LinkWithSingleRecipient(addr: string)
    requires Formatter.SanitizeEmail(addr) == addr
    ensures Formatter.GetLink(Formatter.New(Formatter.Str(addr), [], "")) == "mailto:" + addr
  {
    var m := Formatter.New(Formatter.Str(addr), [], "");
    NoHeadersNoBody(Formatter.Str(addr));
    SingleRecipient(addr);
    assert Text.Join(m.recipients, ',') == addr;
  }

  lemma SetHeadersTwo(m: Formatter.MailTo, h1: (string, Formatter.Value), h2: (string, Formatter.Value))
    ensures Formatter.SetHeaders(m, [h1, h2]) == Formatter.SetHeader(Formatter.SetHeader(m, h1.0, h1.1), h2.0, h2.1)
  {
    var hs := [h1, h2];
    var m1 := Formatter.SetHeader(m, h1.0, h1.1);
    assert hs[1..] == [h2];
    assert Formatter.SetHeaders(m, hs) == Formatter.SetHeaders(m1, [h2]);
    assert [h2][1..] == [];
    assert Formatter.SetHeaders(m1, [h2]) == Formatter.SetHeaders(Formatter.SetHeader(m1, h2.0, h2.1), []);
  }

  lemma CcSecond(m: Formatter.MailTo, subject: string, cc: string)
    requires Text.Trim(cc) == cc && ',' !in cc
    requires m.headers == [("subject", Formatter.Str(subject))]
    ensures Formatter.SetHeader(m, "cc", Formatter.Str(cc)).headers
      == [("subject", Formatter.Str(subject)), ("cc", Formatter.List([cc]))]
  {
    assert Text.ToLower("cc") == "cc";
    Text.SplitNoSep(cc, ',');
    assert Formatter.Normalize("cc", Formatter.Str(cc)) == Formatter.List([cc]);
    assert OrderedMap.Keys(m.headers) == ["subject"];
    OrderedMap.PutNew(m.headers, "cc", Formatter.List([cc]));
  }

  /** `subject` then `cc`: the subject kept as given, the address in a one-item list, in that order. */
  lemma SubjectAndCc(subject: string, cc: string)
    requires Text.Trim(cc) == cc && ',' !in cc
    ensures Formatter.SetHeaders(Formatter.Empty, [("subject", Formatter.Str(subject)), ("cc", Formatter.Str(cc))]).headers
      == [("subject", Formatter.Str(subject)), ("cc", Formatter.List([cc]))]
  {
    var m1 := Formatter.SetHeader(Formatter.Empty, "subject", Formatter.Str(subject));
    SubjectFirst(subject);
    CcSecond(m1, subject, cc);
    SetHeadersTwo(Formatter.Empty, ("subject", Formatter.Str(subject)), ("cc", Formatter.Str(cc)));
  }

  lemma LinkOfSubjectAndCc(addr: string, subject: string, cc: string)
    requires ',' !in cc
    ensures Formatter.GetLink(Formatter.MailTo([addr], [("subject", Formatter.Str(subject)), ("cc", Formatter.List([cc]))], ""))
      == "mailto:" + addr + "?" + Url.BuildQuery([("subject", subject), ("cc", cc)])
  {
    var m := Formatter.MailTo([addr], [("subject", Formatter.Str(subject)), ("cc", Formatter.List([cc]))], "");
    assert Formatter.Flatten(Formatter.List([cc])) == cc;
    assert Formatter.Parameters(m) == [("subject", subject), ("cc", cc)];
    assert Text.Join([addr], ',') == addr;
  }

  lemma SubjectCcNames(subject: string, cc: string)
    ensures Url.BuildQuery([("subject", subject), ("cc", cc)])
      == ("subject" + "=") + Url.RawUrlEncode(subject) + ("&" + "cc" + "=") + Url.RawUrlEncode(cc)
  {
    SubjectUnreserved();
    CcUnreserved();
    QueryOfTwoNames("subject", subject, "cc", cc);
  }

  /** A re-bracketing step (see the note at `Regroup`). */
  lemma SubjectCcLiterals(x: string, y: string)
    ensures ("subject" + "=") + x + ("&" + "cc" + "=") + y == "subject=" + x + "&cc=" + y
  {
  }

  lemma QuerySubjectCc(subject: string, cc: string)
    ensures Url.BuildQuery([("subject", subject), ("cc", cc)])
      == "subject=" + Url.RawUrlEncode(subject) + "&cc=" + Url.RawUrlEncode(cc)
  {
    SubjectCcNames(subject, cc);
    SubjectCcLiterals(Url.RawUrlEncode(subject), Url.RawUrlEncode(cc));
  }

  /**
    A subject and a `cc` address: both encoded, in the order given
    (`mailto:test@example.com?subject=My%20Subject&cc=foo%40example.com`,
    with the encodings below).
   */
  lemma LinkWithHeaders(addr: string, subject: string, cc: string)
    requires Formatter.SanitizeEmail(addr) == addr
    requires Text.Trim(cc) == cc && ',' !in cc
    ensures Formatter.GetLink(Formatter.New(Formatter.Str(addr), [("subject", Formatter.Str(subject)), ("cc", Formatter.Str(cc))], ""))
      == "mailto:" + addr + "?" + ("subject=" + Url.RawUrlEncode(subject) + "&cc=" + Url.RawUrlEncode(cc))
  {
    var hs := [("subject", Formatter.Str(subject)), ("cc", Formatter.Str(cc))];
    var m := Formatter.New(Formatter.Str(addr), hs, "");
    SingleRecipient(addr);
    SubjectAndCc(subject, cc);
    Text.TrimFixedPoint("");
    assert m == Formatter.MailTo([addr], [("subject", Formatter.Str(subject)), ("cc", Formatter.List([cc]))], "");
    LinkOfSubjectAndCc(addr, subject, cc);
    QuerySubjectCc(subject, cc);
  }

  lemma BodyParameters(addr: string, b: string)
    requires Formatter.Truthy(b)
    ensures Formatter.Parameters(Formatter.MailTo([addr], [], b)) == [("body", b)]
  {
    OrderedMap.PutNew([], "body", b);
  }

  lemma LinkOfBodyParameter(addr: string, b: string)
    requires Formatter.Truthy(b)
    ensures Formatter.GetLink(Formatter.MailTo([addr], [], b)) == "mailto:" + addr + "?" + ("body" + "=" + Url.RawUrlEncode(b))
  {
    BodyParameters(addr, b);
    BodyUnreserved();
    LinkOfOneParameter(Formatter.MailTo([addr], [], b), addr, "body", b);
  }

  /** A re-bracketing step (see the note at `Regroup`). */
  lemma BodyLiteral(p: string, x: string)
    ensures p + ("body" + "=" + x) == p + ("body=" + x)
  {
  }

  lemma LinkOfBody(addr: string, b: string)
    requires Formatter.Truthy(b)
    ensures Formatter.GetLink(Formatter.MailTo([addr], [], b)) == "mailto:" + addr + "?" + ("body=" + Url.RawUrlEncode(b))
  {
    LinkOfBodyParameter(addr, b);
    BodyLiteral("mailto:" + addr + "?", Url.RawUrlEncode(b));
  }

  /** A body set after construction is trimmed and appended, encoded, as the only parameter. */
  lemma LinkWithBody(addr: string, body: string)
    requires Formatter.SanitizeEmail(addr) == addr
    requires Formatter.Truthy(Text.Trim(body))
    ensures Formatter.GetLink(Formatter.SetBody(Formatter.New(Formatter.Str(addr), [], ""), body))
      == "mailto:" + addr + "?" + ("body=" + Url.RawUrlEncode(Text.Trim(body)))
  {
    var m := Formatter.SetBody(Formatter.New(Formatter.Str(addr), [], ""), body);
    SingleRecipient(addr);
    NoHeadersNoBody(Formatter.Str(addr));
    assert m == Formatter.MailTo([addr], [], Text.Trim(body));
    LinkOfBody(addr, Text.Trim(body));
  }

  lemma CcList(a: string, b: string)
    ensures Formatter.SetHeaders(Formatter.Empty, [("cc", Formatter.List([a, b]))]).headers == [("cc", Formatter.List([a, b]))]
  {
    var hs := [("cc", Formatter.List([a, b]))];
    assert hs[1..] == [];
    assert Text.ToLower("cc") == "cc";
    OrderedMap.PutNew([], "cc", Formatter.List([a, b]));
    assert Formatter.SetHeaders(Formatter.Empty, hs) == Formatter.SetHeader(Formatter.Empty, "cc", Formatter.List([a, b]));
  }

  lemma ListParameters(addr: string, a: string, b: string)
    ensures Formatter.Parameters(Formatter.MailTo([addr], [("cc", Formatter.List([a, b]))], "")) == [("cc", a + "," + b)]
  {
    Text.JoinTwo(a, b, ',');
    assert Formatter.Flatten(Formatter.List([a, b])) == a + "," + b;
  }

  lemma LinkOfListHeader(addr: string, a: string, b: string)
    ensures Formatter.GetLink(Formatter.MailTo([addr], [("cc", Formatter.List([a, b]))], ""))
      == "mailto:" + addr + "?" + ("cc=" + Url.RawUrlEncode(a + "," + b))
  {
    ListParameters(addr, a, b);
    CcUnreserved();
    LinkOfOneParameter(Formatter.MailTo([addr], [("cc", Formatter.List([a, b]))], ""), addr, "cc", a + "," + b);
  }

  /** A header with two values: the values comma-joined, then encoded, so the comma becomes `%2C`. */
  lemma LinkWithListHeader(addr: string, a: string, b: string)
    requires Formatter.SanitizeEmail(addr) == addr
    ensures Formatter.GetLink(Formatter.New(Formatter.Str(addr), [("cc", Formatter.List([a, b]))], ""))
      == "mailto:" + addr + "?" + ("cc=" + Url.RawUrlEncode(a + "," + b))
  {
    var m := Formatter.New(Formatter.Str(addr), [("cc", Formatter.List([a, b]))], "");
    SingleRecipient(addr);
    CcList(a, b);
    Text.TrimFixedPoint("");
    assert m == Formatter.MailTo([addr], [("cc", Formatter.List([a, b]))], "");
    LinkOfListHeader(addr, a, b);
  }

  // ---------------------------------------------------------------------------
  // The encodings the tests spell out

  lemma EncodeAround(a: string, x: string, b: string)
    ensures Url.RawUrlEncode(a + x + b) == Url.RawUrlEncode(a) + Url.RawUrlEncode(x) + Url.RawUrlEncode(b)
  {
    Url.RawUrlEncodeConcat(a + x, b);
    Url.RawUrlEncodeConcat(a, x);
  }

  lemma EncodeWithUnreservedSides(a: string, x: string, b: string)
    requires forall i | 0 <= i < |a| :: Url.IsUnreserved(a[i])
    requires forall i | 0 <= i < |b| :: Url.IsUnreserved(b[i])
    ensures Url.RawUrlEncode(a + x + b) == a + Url.RawUrlEncode(x) + b
  {
    EncodeAround(a, x, b);
  }

  /** A space is `%20`. */
  lemma EncodeSpace()
    ensures Url.RawUrlEncode(" ") == "%20"
  {
    assert Url.Utf8Encode(" ") == [32];
    assert Url.EncodeBytes([32]) == "%20";
  }

  /** `@` is `%40`. */
  lemma EncodeAt()
    ensures Url.RawUrlEncode("@") == "%40"
  {
    assert Url.Utf8Encode("@") == [64];
    assert Url.EncodeBytes([64]) == "%40";
  }

  /** `,` is `%2C`, with an upper-case hex digit. */
  lemma EncodeComma()
    ensures Url.RawUrlEncode(",") == "%2C"
  {
    assert Url.Utf8Encode(",") == [44];
    assert Url.EncodeBytes([44]) == "%2C";
  }

  // Literal facts for `EncodeMySubject` (see the note at `SubjectUnreserved`).
  lemma MyUnreserved() ensures forall i | 0 <= i < |"My"| :: Url.IsUnreserved("My"[i]) {}
  lemma SubjectWordUnreserved() ensures forall i | 0 <= i < |"Subject"| :: Url.IsUnreserved("Subject"[i]) {}

  lemma EncodeMySubjectParts()
    ensures Url.RawUrlEncode("My" + " " + "Subject") == "My" + "%20" + "Subject"
  {
    MyUnreserved();
    SubjectWordUnreserved();
    EncodeWithUnreservedSides("My", " ", "Subject");
    EncodeSpace();
  }

  /** `My Subject` is `My%20Subject`. */
  lemma EncodeMySubject()
    ensures Url.RawUrlEncode("My Subject") == "My%20Subject"
  {
    EncodeMySubjectParts();
    assert "My" + " " + "Subject" == "My Subject";
    assert "My" + "%20" + "Subject" == "My%20Subject";
  }

  /** An address with an unreserved local part and domain encodes only its `@`. */
  lemma EncodeAddress(local: string, domain: string)
    requires forall i | 0 <= i < |local| :: Url.IsUnreserved(local[i])
    requires forall i | 0 <= i < |domain| :: Url.IsUnreserved(domain[i])
    ensures Url.RawUrlEncode(local + "@" + domain) == local + "%40" + domain
  {
    EncodeWithUnreservedSides(local, "@", domain);
    EncodeAt();
  }

  /** Two values joined by a comma encode to their encodings joined by `%2C`. */
  lemma EncodeCommaJoined(a: string, b: string)
    ensures Url.RawUrlEncode(a + "," + b) == Url.RawUrlEncode(a) + "%2C" + Url.RawUrlEncode(b)
  {
    EncodeAround(a, ",", b);
    EncodeComma();
  }

  // ---------------------------------------------------------------------------
  // A `?` or a `%` in a recipient

  lemma QuestionMarkLiteralClean()
    ensures Formatter.SanitizeEmail("?subject=") == "?subject="
  {
    var s := "?subject=";
    assert forall i | 0 <= i < |s| :: Formatter.IsEmailChar(s[i]);
    Formatter.SanitizeFixedPoint(s);
  }

  /** Every unreserved character is an address character. */
  lemma UnreservedClean(v: string)
    requires forall i | 0 <= i < |v| :: Url.IsUnreserved(v[i])
    ensures Formatter.SanitizeEmail(v) == v
  {
    assert forall i | 0 <= i < |v| :: Formatter.IsEmailChar(v[i]);
    Formatter.SanitizeFixedPoint(v);
  }

  lemma AmbiguousRecipientClean(addr: string, v: string)
    requires Formatter.SanitizeEmail(addr) == addr
    requires forall i | 0 <= i < |v| :: Url.IsUnreserved(v[i])
    ensures Formatter.SanitizeEmail(addr + "?subject=" + v) == addr + "?subject=" + v
  {
    QuestionMarkLiteralClean();
    UnreservedClean(v);
    Formatter.SanitizeConcat(addr + "?subject=", v);
    Formatter.SanitizeConcat(addr, "?subject=");
  }

  lemma AmbiguousStatesValid(addr: string, v: string)
    requires Formatter.SanitizeEmail(addr) == addr
    requires forall i | 0 <= i < |v| :: Url.IsUnreserved(v[i])
    ensures Formatter.Valid(Formatter.MailTo([addr + "?subject=" + v], [], ""))
    ensures Formatter.Valid(Formatter.MailTo([addr], [("subject", Formatter.Str(v))], ""))
  {
    AmbiguousRecipientClean(addr, v);
    assert Text.IsLower("subject");
  }

  lemma LinkOfOneRecipient(r: string)
    ensures Formatter.GetLink(Formatter.MailTo([r], [], "")) == "mailto:" + r
  {
    assert Text.Join([r], ',') == r;
  }

  lemma LinkOfSubjectOnly(addr: string, v: string)
    requires forall i | 0 <= i < |v| :: Url.IsUnreserved(v[i])
    ensures Formatter.GetLink(Formatter.MailTo([addr], [("subject", Formatter.Str(v))], "")) == "mailto:" + addr + "?" + ("subject" + "=" + v)
  {
    var m := Formatter.MailTo([addr], [("subject", Formatter.Str(v))], "");
    assert Formatter.Parameters(m) == [("subject", v)];
    SubjectUnreserved();
    LinkOfOneParameter(m, addr, "subject", v);
  }

  lemma AmbiguousLiteral(addr: string, v: string)
    ensures "mailto:" + addr + "?" + ("subject" + "=" + v) == "mailto:" + (addr + "?subject=" + v)
  {
  }

  /**
    A `?` is an address character to the sanitiser, and recipients are not
    percent-encoded, so a recipient holding `?subject=` renders the same
    link as a different, equally well-formed state with a subject header.
   */
  lemma QuestionMarkInRecipientIsAmbiguous(addr: string, v: string)
    requires Formatter.SanitizeEmail(addr) == addr
    requires forall i | 0 <= i < |v| :: Url.IsUnreserved(v[i])
    ensures var a := Formatter.MailTo([addr + "?subject=" + v], [], "");
      var b := Formatter.MailTo([addr], [("subject", Formatter.Str(v))], "");
      && Formatter.Valid(a) && Formatter.Valid(b)
      && a != b && Formatter.GetLink(a) == Formatter.GetLink(b)
  {
    AmbiguousStatesValid(addr, v);
    assert |addr + "?subject=" + v| != |addr|;
    LinkOfOneRecipient(addr + "?subject=" + v);
    LinkOfSubjectOnly(addr, v);
    AmbiguousLiteral(addr, v);
  }

  lemma PercentLiteralClean()
    ensures Formatter.SanitizeEmail("%40") == "%40"
  {
    var s := "%40";
    assert forall i | 0 <= i < |s| :: Formatter.IsEmailChar(s[i]);
    Formatter.SanitizeFixedPoint(s);
  }

  lemma PercentRecipientValid(local: string, domain: string)
    requires forall i | 0 <= i < |local| :: Url.IsUnreserved(local[i])
    requires forall i | 0 <= i < |domain| :: Url.IsUnreserved(domain[i])
    ensures Formatter.Valid(Formatter.MailTo([local + "%40" + domain], [], ""))
  {
    UnreservedClean(local);
    UnreservedClean(domain);
    PercentLiteralClean();
    Formatter.SanitizeConcat(local + "%40", domain);
    Formatter.SanitizeConcat(local, "%40");
  }

  /**
    A `%` is an address character to the sanitiser, and recipients are not
    percent-encoded, so the stored recipient `local%40domain` is emitted as
    is.  A reader that percent-decodes the address part, as section 2 of
    RFC 6068 asks, gets the bytes of the different address `local@domain`.
   */
  lemma PercentInRecipientIsMisread(local: string, domain: string)
    requires forall i | 0 <= i < |local| :: Url.IsUnreserved(local[i])
    requires forall i | 0 <= i < |domain| :: Url.IsUnreserved(domain[i])
    ensures var r := local + "%40" + domain;
      var m := Formatter.MailTo([r], [], "");
      && Formatter.Valid(m)
      && Formatter.GetLink(m) == "mailto:" + r
      && Url.PercentDecode(r) == Some(Url.Utf8Encode(local + "@" + domain))
      && local + "@" + domain != r
  {
    PercentRecipientValid(local, domain);
    LinkOfOneRecipient(local + "%40" + domain);
    EncodeAddress(local, domain);
    Url.DecodeRawUrlEncode(local + "@" + domain);
    assert |local + "@" + domain| != |local + "%40" + domain|;
  }

  // ---------------------------------------------------------------------------
  // Defaults and lists holding commas

  /**
    `new MailTo()` with its default arguments stores the one empty recipient
    that exploding `''` gives, and renders the bare `mailto:`.
   */
  lemma DefaultConstructor()
    ensures Formatter.New(Formatter.Str(""), [], "") == Formatter.MailTo([""], [], "")
    ensures Formatter.GetLink(Formatter.New(Formatter.Str(""), [], "")) == "mailto:"
  {
    var m := Formatter.New(Formatter.Str(""), [], "");
    DefaultRecipients();
    DefaultBody();
    assert m.headers == Formatter.SetHeaders(Formatter.Empty, []).headers == [];
    assert m == Formatter.MailTo([""], [], "");
    LinkOfOneRecipient("");
  }

  /** Literal facts for `DefaultConstructor`, kept apart so that it stays cheap to verify. */
  lemma DefaultRecipients()
    ensures Formatter.SetRecipients(Formatter.Empty, Formatter.Str("")).recipients == [""]
  {
    assert Text.Split("", ',') == [""];
    assert Formatter.SanitizeEmail("") == "";
  }

  lemma DefaultBody()
    ensures Text.Trim("") == ""
  {
  }

  /** A three-item list header is comma-joined as is, even when an item holds a comma itself. */
  lemma FlattenThreeItems(a: string, b: string, c: string)
    ensures Formatter.Flatten(Formatter.List([a, b, c])) == a + "," + b + "," + c
  {
    Text.JoinAppend([a], [b, c], ',');
    Text.JoinTwo(b, c, ',');
    assert [a] + [b, c] == [a, b, c];
  }
}
