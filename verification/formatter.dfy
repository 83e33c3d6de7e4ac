/**
  The `MailTo` class: three pieces of state (recipients, headers, body), each
  normalised when it is written, and `GetLink`, which renders them as a
  `mailto:` URI of the form `mailto:addr,addr?hfield=hvalue&...` (section 2
  of RFC 6068).  The class is a value here: every setter returns the updated
  state instead of changing an object.
 */
module Formatter {
  import opened Wrappers
  import Text
  import OrderedMap
  import Url

  /** A PHP `string|array` argument or header value: one string, or a list of strings. */
  datatype Value = Str(s: string) | List(items: seq<string>)

  /** Headers: lower-cased names to values, in insertion order. */
  type Headers = seq<(string, Value)>

  datatype MailTo = MailTo(recipients: seq<string>, headers: Headers, body: string)

  // ---------------------------------------------------------------------------
  // sanitizeEmail

  /** The characters `FILTER_SANITIZE_EMAIL` keeps: letters, digits and ``!#$%&'*+-=?^_`{|}~@.[]``. */
  predicate IsEmailChar(c: char)
  {
    || ('a' <= c <= 'z') || ('A' <= c <= 'Z') || ('0' <= c <= '9')
    || c == '!' || c == '#' || c == '$' || c == '%' || c == '&' || c == '\'' || c == '*'
    || c == '+' || c == '-' || c == '=' || c == '?' || c == '^' || c == '_' || c == '`'
    || c == '{' || c == '|' || c == '}' || c == '~' || c == '@' || c == '.' || c == '[' || c == ']'
  }

  /** `a` can be obtained from `b` by deleting characters. */
  predicate IsSubsequence(a: string, b: string)
    decreases |b|
  {
    if |a| == 0 then true
    else if |b| == 0 then false
    else if a[0] == b[0] then IsSubsequence(a[1..], b[1..])
    else IsSubsequence(a, b[1..])
  }

  /**
    `filter_var($email, FILTER_SANITIZE_EMAIL)`: the characters of the input
    that an address may hold, in their original order.  Only allowed
    characters survive; `SanitizeKeepsAllowed` and `SanitizeIsSubsequence`
    state that every allowed character survives, in order.
   */
  function SanitizeEmail(s: string): (r: string)
    ensures forall i | 0 <= i < |r| :: IsEmailChar(r[i])
    ensures |r| <= |s|
    decreases |s|
  {
    if |s| == 0 then ""
    else
      var rest := SanitizeEmail(s[1..]);
      if IsEmailChar(s[0]) then
        var r := [s[0]] + rest;
        assert r[1..] == rest;
        r
      else
        rest
  }

  /** Every allowed character occurs in the output as often as in the input. */
  lemma {:induction false} SanitizeKeepsAllowed(s: string)
    ensures forall c | IsEmailChar(c) :: multiset(SanitizeEmail(s))[c] == multiset(s)[c]
    decreases |s|
  {
    if |s| > 0 {
      SanitizeKeepsAllowed(s[1..]);
      assert s == [s[0]] + s[1..];
      assert multiset(s) == multiset{s[0]} + multiset(s[1..]);
      if IsEmailChar(s[0]) {
        assert multiset(SanitizeEmail(s)) == multiset{s[0]} + multiset(SanitizeEmail(s[1..]));
      }
    }
  }

  /** The output is the input with characters deleted, never reordered. */
  lemma {:induction false} SanitizeIsSubsequence(s: string)
    ensures IsSubsequence(SanitizeEmail(s), s)
    decreases |s|
  {
    if |s| > 0 {
      SanitizeIsSubsequence(s[1..]);
      var rest := SanitizeEmail(s[1..]);
      if IsEmailChar(s[0]) {
        assert ([s[0]] + rest)[1..] == rest;
      } else {
        SubsequenceDrop(rest, s);
      }
    }
  }

  lemma {:induction false} SubsequenceDrop(a: string, b: string)
    requires |b| > 0 && IsSubsequence(a, b[1..])
    ensures IsSubsequence(a, b)
    decreases |b|, |a|
  {
    if |a| > 0 && a[0] == b[0] {
      SubsequenceTail(a, b[1..]);
    }
  }

  lemma {:induction false} SubsequenceTail(a: string, b: string)
    requires |a| > 0 && IsSubsequence(a, b)
    ensures IsSubsequence(a[1..], b)
    decreases |b|, |a|
  {
    if |a[1..]| > 0 {
      if a[0] == b[0] {
        SubsequenceDrop(a[1..], b);
      } else {
        SubsequenceTail(a, b[1..]);
        SubsequenceDrop(a[1..], b);
      }
    }
  }

  /** An address comes back from the sanitiser unchanged exactly when every character of it is allowed. */
  lemma {:induction false} SanitizeFixedPoint(s: string)
    ensures SanitizeEmail(s) == s <==> forall i | 0 <= i < |s| :: IsEmailChar(s[i])
    decreases |s|
  {
    if |s| > 0 {
      SanitizeFixedPoint(s[1..]);
      assert [s[0]] + s[1..] == s;
      if IsEmailChar(s[0]) {
        assert SanitizeEmail(s) == [s[0]] + SanitizeEmail(s[1..]);
        assert (forall i | 0 <= i < |s| :: IsEmailChar(s[i])) <==> (forall i | 0 <= i < |s[1..]| :: IsEmailChar(s[1..][i]));
      }
    }
  }

  /** Sanitising is idempotent. */
  lemma SanitizeIdempotent(s: string)
    ensures SanitizeEmail(SanitizeEmail(s)) == SanitizeEmail(s)
  {
    SanitizeFixedPoint(SanitizeEmail(s));
  }

  /** The sanitiser works character by character: it distributes over concatenation. */
  lemma {:induction false} SanitizeConcat(a: string, b: string)
    ensures SanitizeEmail(a + b) == SanitizeEmail(a) + SanitizeEmail(b)
    decreases |a|
  {
    if |a| > 0 {
      assert (a + b)[1..] == a[1..] + b;
      SanitizeConcat(a[1..], b);
    } else {
      assert a + b == b;
    }
  }

  /** A comma is not an address character, so a sanitised address never contains one. */
  lemma SanitizedHasNoComma(s: string)
    ensures ',' !in SanitizeEmail(s)
  {
    assert !IsEmailChar(',');
  }

  // ---------------------------------------------------------------------------
  // State and invariant

  /**
    What the setters maintain: every recipient is a fixed point of the
    sanitiser, header names are unique and lower-case, only `subject` may
    hold a plain string, and the body carries no surrounding whitespace.
   */
  predicate Valid(m: MailTo)
  {
    && (forall i | 0 <= i < |m.recipients| :: SanitizeEmail(m.recipients[i]) == m.recipients[i])
    && OrderedMap.KeysUnique(m.headers)
    && (forall i | 0 <= i < |m.headers| :: Text.IsLower(m.headers[i].0))
    && (forall i | 0 <= i < |m.headers| :: m.headers[i].1.Str? ==> m.headers[i].0 == "subject")
    && Text.IsTrimmed(m.body)
  }

  /** The state before the constructor runs its setters. */
  const Empty: MailTo := MailTo([], [], "")

  // ---------------------------------------------------------------------------
  // Recipients

  /**
    `setRecipients`: a string is first exploded on commas; every address is
    sanitised, and the list replaces the old one.
   */
  function SetRecipients(m: MailTo, recipients: Value): (r: MailTo)
    ensures r.headers == m.headers && r.body == m.body
    ensures recipients.List? ==> |r.recipients| == |recipients.items|
    ensures recipients.Str? ==> |r.recipients| == |Text.Split(recipients.s, ',')| >= 1
    ensures recipients.List? ==> forall i | 0 <= i < |r.recipients| :: r.recipients[i] == SanitizeEmail(recipients.items[i])
    ensures recipients.Str? ==> forall i | 0 <= i < |r.recipients| :: r.recipients[i] == SanitizeEmail(Text.Split(recipients.s, ',')[i])
    ensures forall i | 0 <= i < |r.recipients| :: SanitizeEmail(r.recipients[i]) == r.recipients[i] && ',' !in r.recipients[i]
    ensures Valid(m) ==> Valid(r)
  {
    var items := match recipients case Str(s) => Text.Split(s, ',') case List(xs) => xs;
    var rs := seq(|items|, i requires 0 <= i < |items| => SanitizeEmail(items[i]));
    forall i | 0 <= i < |rs| ensures SanitizeEmail(rs[i]) == rs[i] && ',' !in rs[i] {
      SanitizeIdempotent(items[i]);
      SanitizedHasNoComma(items[i]);
    }
    m.(recipients := rs)
  }

  /**
    A comma-separated string sets the same recipients as the list of its
    pieces, and a list of comma-free addresses, comma-joined, sets exactly
    that list again.
   */
  lemma SetRecipientsFromString(m: MailTo, xs: seq<string>)
    requires |xs| >= 1
    requires forall i | 0 <= i < |xs| :: ',' !in xs[i]
    ensures SetRecipients(m, Str(Text.Join(xs, ','))) == SetRecipients(m, List(xs))
  {
    Text.SplitJoin(xs, ',');
  }

  /** Setting recipients replaces them: the earlier list leaves no trace. */
  lemma SetRecipientsReplaces(m: MailTo, first: Value, second: Value)
    ensures SetRecipients(SetRecipients(m, first), second) == SetRecipients(m, second)
  {
  }

  /** `getRecipients`: in a valid state no address holds a comma, so the list survives being comma-joined. */
  function GetRecipients(m: MailTo): (r: seq<string>)
    ensures Valid(m) ==> forall i | 0 <= i < |r| :: ',' !in r[i] && SanitizeEmail(r[i]) == r[i]
  {
    ValidRecipientsHaveNoComma(m);
    m.recipients
  }

  lemma ValidRecipientsHaveNoComma(m: MailTo)
    ensures Valid(m) ==> forall i | 0 <= i < |m.recipients| :: ',' !in m.recipients[i]
  {
    forall i | 0 <= i < |m.recipients| && Valid(m) ensures ',' !in m.recipients[i] {
      SanitizedHasNoComma(m.recipients[i]);
    }
  }

  // ---------------------------------------------------------------------------
  // Headers

  /** `array_map('trim', $pieces)`. */
  function TrimEach(xs: seq<string>): (r: seq<string>)
    ensures |r| == |xs|
    ensures forall i | 0 <= i < |xs| :: r[i] == Text.Trim(xs[i])
  {
    seq(|xs|, i requires 0 <= i < |xs| => Text.Trim(xs[i]))
  }

  /**
    The value `setHeader` stores under an already lower-cased name: a string
    for any name but `subject` is exploded on commas and each piece trimmed;
    a subject string and any list are kept as given.
   */
  function Normalize(key: string, value: Value): (r: Value)
    ensures r.Str? ==> key == "subject"
    ensures key == "subject" || value.List? ==> r == value
    ensures key != "subject" && value.Str? ==>
      && r.List?
      && |r.items| == |Text.Split(value.s, ',')|
      && forall i | 0 <= i < |r.items| :: r.items[i] == Text.Trim(Text.Split(value.s, ',')[i])
  {
    if value.Str? && key != "subject" then List(TrimEach(Text.Split(value.s, ','))) else value
  }

  /**
    `setHeader`: the name is lower-cased and the normalised value written
    under it.  An existing name keeps its position; a new one goes last.
    Every other header, the recipients and the body are untouched.
   */
  function SetHeader(m: MailTo, key: string, value: Value): (r: MailTo)
    ensures r.recipients == m.recipients && r.body == m.body
    ensures OrderedMap.Lookup(r.headers, Text.ToLower(key)) == Some(Normalize(Text.ToLower(key), value))
    ensures forall k | k != Text.ToLower(key) :: OrderedMap.Lookup(r.headers, k) == OrderedMap.Lookup(m.headers, k)
    ensures Text.ToLower(key) in OrderedMap.Keys(m.headers) ==> OrderedMap.Keys(r.headers) == OrderedMap.Keys(m.headers)
    ensures Text.ToLower(key) !in OrderedMap.Keys(m.headers) ==>
      OrderedMap.Keys(r.headers) == OrderedMap.Keys(m.headers) + [Text.ToLower(key)]
    ensures Valid(m) ==> Valid(r)
  {
    var k := Text.ToLower(key);
    var r := m.(headers := OrderedMap.Put(m.headers, k, Normalize(k, value)));
    SetHeaderKeepsValid(m, k, Normalize(k, value));
    r
  }

  lemma SetHeaderKeepsValid(m: MailTo, k: string, v: Value)
    requires Text.IsLower(k)
    requires v.Str? ==> k == "subject"
    ensures Valid(m) ==> Valid(m.(headers := OrderedMap.Put(m.headers, k, v)))
  {
    if Valid(m) {
      var hs := OrderedMap.Put(m.headers, k, v);
      OrderedMap.PutSingleEntry(m.headers, k, v);
      forall i | 0 <= i < |hs| ensures Text.IsLower(hs[i].0) && (hs[i].1.Str? ==> hs[i].0 == "subject") {
        assert OrderedMap.Keys(hs)[i] == hs[i].0;
        if hs[i].0 != k {
          assert OrderedMap.Keys(m.headers)[i] == hs[i].0;
        }
      }
    }
  }

  /** Setting the same header twice is the same as setting it once to the second value. */
  lemma SetHeaderTwice(m: MailTo, key: string, first: Value, second: Value)
    ensures SetHeader(SetHeader(m, key, first), key, second) == SetHeader(m, key, second)
  {
    var k := Text.ToLower(key);
    OrderedMap.PutPut(m.headers, k, Normalize(k, first), Normalize(k, second));
  }

  /**
    After overwriting, a valid state has exactly one entry for the header,
    in the position the first write gave it, holding the second value.
   */
  lemma SetHeaderOverwrites(m: MailTo, key: string, first: Value, second: Value)
    requires Valid(m)
    ensures var k := Text.ToLower(key);
      var once := SetHeader(m, key, first).headers;
      var twice := SetHeader(SetHeader(m, key, first), key, second).headers;
      && OrderedMap.Keys(twice) == OrderedMap.Keys(once)
      && OrderedMap.IndexOfKey(once, k) < |once|
      && twice[OrderedMap.IndexOfKey(once, k)] == (k, Normalize(k, second))
      && forall j | 0 <= j < |twice| && twice[j].0 == k :: j == OrderedMap.IndexOfKey(once, k)
  {
    var k := Text.ToLower(key);
    var once := SetHeader(m, key, first).headers;
    OrderedMap.PutSingleEntry(once, k, Normalize(k, second));
    var i := OrderedMap.IndexOfKey(once, k);
    assert OrderedMap.Lookup(once, k).Some?;
  }

  /** `setHeaders`: `setHeader` for every pair, in order; it adds and overwrites but never removes. */
  function SetHeaders(m: MailTo, headers: seq<(string, Value)>): (r: MailTo)
    ensures r.recipients == m.recipients && r.body == m.body
    ensures forall i | 0 <= i < |headers| :: Text.ToLower(headers[i].0) in OrderedMap.Keys(r.headers)
    ensures forall k | k in OrderedMap.Keys(m.headers) :: k in OrderedMap.Keys(r.headers)
    ensures Valid(m) ==> Valid(r)
    decreases |headers|
  {
    if |headers| == 0 then m
    else
      var m' := SetHeader(m, headers[0].0, headers[0].1);
      var r := SetHeaders(m', headers[1..]);
      assert forall i | 1 <= i < |headers| :: headers[i] == headers[1..][i - 1];
      r
  }

  /** `setHeaders` over a concatenation is `setHeaders` over each part in turn. */
  lemma {:induction false} SetHeadersAppend(m: MailTo, a: seq<(string, Value)>, b: seq<(string, Value)>)
    ensures SetHeaders(m, a + b) == SetHeaders(SetHeaders(m, a), b)
    decreases |a|
  {
    if |a| == 0 {
      assert a + b == b;
    } else {
      assert (a + b)[1..] == a[1..] + b;
      SetHeadersAppend(SetHeader(m, a[0].0, a[0].1), a[1..], b);
    }
  }

  /** The headers `setHeaders` produces depend only on the headers it starts from. */
  lemma {:induction false} SetHeadersOnlyHeaders(m1: MailTo, m2: MailTo, headers: seq<(string, Value)>)
    requires m1.headers == m2.headers
    ensures SetHeaders(m1, headers).headers == SetHeaders(m2, headers).headers
    decreases |headers|
  {
    if |headers| > 0 {
      SetHeadersOnlyHeaders(SetHeader(m1, headers[0].0, headers[0].1), SetHeader(m2, headers[0].0, headers[0].1), headers[1..]);
    }
  }

  /** A header whose name none of the pairs lower-cases to keeps its prior value. */
  lemma {:induction false} SetHeadersFrame(m: MailTo, headers: seq<(string, Value)>, k: string)
    requires forall i | 0 <= i < |headers| :: Text.ToLower(headers[i].0) != k
    ensures OrderedMap.Lookup(SetHeaders(m, headers).headers, k) == OrderedMap.Lookup(m.headers, k)
    decreases |headers|
  {
    if |headers| > 0 {
      SetHeadersFrame(SetHeader(m, headers[0].0, headers[0].1), headers[1..], k);
    }
  }

  /** The last pair that names a header decides its value. */
  lemma SetHeadersLastWins(m: MailTo, headers: seq<(string, Value)>, i: nat)
    requires i < |headers|
    requires forall j | i < j < |headers| :: Text.ToLower(headers[j].0) != Text.ToLower(headers[i].0)
    ensures var k := Text.ToLower(headers[i].0);
      OrderedMap.Lookup(SetHeaders(m, headers).headers, k) == Some(Normalize(k, headers[i].1))
  {
    var k := Text.ToLower(headers[i].0);
    var before, after := headers[..i], headers[i + 1..];
    assert headers == before + ([headers[i]] + after);
    SetHeadersAppend(m, before, [headers[i]] + after);
    var m1 := SetHeaders(m, before);
    assert ([headers[i]] + after)[1..] == after;
    var m2 := SetHeader(m1, headers[i].0, headers[i].1);
    SetHeadersFrame(m2, after, k);
  }

  /** `getHeaders`: in a valid state, unique lower-case names. */
  function GetHeaders(m: MailTo): (r: Headers)
    ensures Valid(m) ==> OrderedMap.KeysUnique(r) && forall i | 0 <= i < |r| :: Text.IsLower(r[i].0)
  {
    m.headers
  }

  /**
    `getHeader($header, $default)`: the stored value if the name is present,
    otherwise the default (`None` standing for `null`).  The name is looked
    up as given, without lower-casing.
   */
  function GetHeader(m: MailTo, key: string, default: Option<Value>): (r: Option<Value>)
    ensures key in OrderedMap.Keys(m.headers) ==> r.Some? && r == OrderedMap.Lookup(m.headers, key)
    ensures forall j | 0 <= j < |m.headers| && OrderedMap.KeysUnique(m.headers) :: m.headers[j].0 == key ==> r == Some(m.headers[j].1)
    ensures key !in OrderedMap.Keys(m.headers) ==> r == default
  {
    match OrderedMap.Lookup(m.headers, key)
    case Some(v) => Some(v)
    case None => default
  }

  /** Reading a header back under its lower-cased name gives what `setHeader` stored. */
  lemma GetHeaderAfterSet(m: MailTo, key: string, value: Value, default: Option<Value>)
    ensures GetHeader(SetHeader(m, key, value), Text.ToLower(key), default) == Some(Normalize(Text.ToLower(key), value))
  {
  }

  // ---------------------------------------------------------------------------
  // Body

  /**
    `setBody`: the body without its surrounding whitespace.  The stored body
    is the input with a run of trim characters removed from each end, and
    trimming it again changes nothing.
   */
  function SetBody(m: MailTo, body: string): (r: MailTo)
    ensures r.recipients == m.recipients && r.headers == m.headers
    ensures Text.IsTrimmed(r.body) && Text.Trim(r.body) == r.body
    ensures var i := Text.TrimStart(body);
      && i + |r.body| <= |body| && r.body == body[i..i + |r.body|]
      && Text.PaddedOutside(body, i, i + |r.body|)
    ensures Valid(m) ==> Valid(r)
  {
    var b := Text.Trim(body);
    Text.TrimFixedPoint(b);
    m.(body := b)
  }

  /** `getBody`: in a valid state it has no surrounding whitespace. */
  function GetBody(m: MailTo): (r: string)
    ensures Valid(m) ==> Text.IsTrimmed(r)
  {
    m.body
  }

  // ---------------------------------------------------------------------------
  // Constructor

  /** `new MailTo($recipients, $headers, $body)`: the three setters, in that order, on an empty state. */
  function New(recipients: Value, headers: seq<(string, Value)>, body: string): (r: MailTo)
    ensures Valid(r)
    ensures r.recipients == SetRecipients(Empty, recipients).recipients
    ensures r.headers == SetHeaders(Empty, headers).headers
    ensures r.body == Text.Trim(body)
  {
    var m1 := SetRecipients(Empty, recipients);
    assert Valid(Empty);
    assert Valid(m1);
    var m2 := SetHeaders(m1, headers);
    SetHeadersOnlyHeaders(m1, Empty, headers);
    assert Valid(m2);
    SetBody(m2, body)
  }

  // ---------------------------------------------------------------------------
  // getLink

  /**
    `implode(',', (array) $value)`: a subject string passes through, a list
    (the empty one and items holding commas included) is comma-joined.  A
    list whose items hold no comma can be recovered by exploding the result.
   */
  function Flatten(v: Value): (r: string)
    ensures v.Str? ==> r == v.s
    ensures v.List? ==> r == Text.Join(v.items, ',')
    ensures v.List? && |v.items| >= 1 && (forall i | 0 <= i < |v.items| :: ',' !in v.items[i]) ==>
      Text.Split(r, ',') == v.items
  {
    match v
    case Str(s) => s
    case List(xs) =>
      assert |xs| >= 1 && (forall i | 0 <= i < |xs| :: ',' !in xs[i]) ==> Text.Split(Text.Join(xs, ','), ',') == xs by {
        if |xs| >= 1 && forall i | 0 <= i < |xs| :: ',' !in xs[i] {
          Text.SplitJoin(xs, ',');
        }
      }
      Text.Join(xs, ',')
  }

  /** PHP's truthiness of a string: false for `""` and for `"0"`. */
  predicate Truthy(s: string)
    ensures Truthy(s) <==> |s| >= 2 || (|s| == 1 && s[0] != '0')
  {
    s != "" && s != "0"
  }

  /**
    The parameters `getLink` encodes: every header flattened, in header
    order, and the body under `body` when it is truthy.  A `body` header
    keeps its place and takes the message body; otherwise `body` comes last.
   */
  function Parameters(m: MailTo): (r: seq<(string, string)>)
    ensures OrderedMap.Keys(r) ==
      OrderedMap.Keys(m.headers) + (if Truthy(m.body) && "body" !in OrderedMap.Keys(m.headers) then ["body"] else [])
    ensures forall k | k in OrderedMap.Keys(m.headers) && (k != "body" || !Truthy(m.body)) ::
      OrderedMap.Lookup(r, k) == Some(Flatten(OrderedMap.Lookup(m.headers, k).value))
    ensures Truthy(m.body) ==> OrderedMap.Lookup(r, "body") == Some(m.body)
    ensures OrderedMap.KeysUnique(m.headers) ==> OrderedMap.KeysUnique(r)
    ensures |r| == 0 <==> |m.headers| == 0 && !Truthy(m.body)
  {
    var flat := OrderedMap.MapValues(m.headers, Flatten);
    forall k ensures OrderedMap.Lookup(flat, k) ==
      if k in OrderedMap.Keys(m.headers) then Some(Flatten(OrderedMap.Lookup(m.headers, k).value)) else None
    {
      OrderedMap.LookupMapValues(m.headers, Flatten, k);
    }
    assert OrderedMap.KeysUnique(m.headers) ==> OrderedMap.KeysUnique(flat) by {
      assert forall i | 0 <= i < |flat| :: flat[i].0 == OrderedMap.Keys(flat)[i] == m.headers[i].0;
    }
    if Truthy(m.body) then OrderedMap.Put(flat, "body", m.body) else flat
  }

  /**
    `getLink`: `mailto:`, the comma-joined recipients, `?`, the query string,
    and then a trailing `?` stripped.  Since the query never holds `?`, the
    `?` appears exactly when there is at least one parameter: with no
    headers and no truthy body the link is just `mailto:` and the recipients.
    Recipients are not percent-encoded.
   */
  function GetLink(m: MailTo): (r: string)
    ensures var prefix := "mailto:" + Text.Join(m.recipients, ',');
      && |prefix| <= |r| && r[..|prefix|] == prefix
      && (r == prefix <==> |m.headers| == 0 && !Truthy(m.body))
      && r == prefix + (if |Parameters(m)| == 0 then "" else "?" + Url.BuildQuery(Parameters(m)))
  {
    var prefix := "mailto:" + Text.Join(m.recipients, ',');
    var params := Parameters(m);
    var query := Url.BuildQuery(params);
    var url := prefix + "?" + query;
    StripQuestionMark(prefix, query);
    assert |query| == 0 <==> |m.headers| == 0 && !Truthy(m.body);
    if url[|url| - 1] == '?' then url[..|url| - 1] else url
  }

  /**
    Stripping one trailing `?` from `prefix?query`, where the query holds no
    `?`, removes the `?` exactly when the query is empty.
   */
  lemma StripQuestionMark(prefix: string, query: string)
    requires '?' !in query
    ensures var url := prefix + "?" + query;
      var r := if url[|url| - 1] == '?' then url[..|url| - 1] else url;
      && r == prefix + (if |query| == 0 then "" else "?" + query)
      && |prefix| <= |r| && r[..|prefix|] == prefix
      && (r == prefix <==> |query| == 0)
  {
    var url := prefix + "?" + query;
    if |query| > 0 {
      assert url[|url| - 1] == query[|query| - 1];
      assert url[..|prefix|] == prefix;
    } else {
      assert url == prefix + "?";
      assert url[..|url| - 1] == prefix;
    }
  }
}
