/** The flash cookie: a context rendered between NUL characters, escaped, and parsed. */
module FlashCookie {
  import opened Wrappers
  import opened Decimal
  import opened QueryEscaping
  import opened FlashMessages

  const NUL := '\0'

  datatype Pair = Pair(key: string, value: string)

  function RenderPair(p: Pair): string {
    [NUL] + p.key + ":" + p.value + [NUL]
  }

  /** The text that setCookie builds when the map yields its entries in this order. */
  function Render(pairs: seq<Pair>): string {
    if pairs == [] then "" else RenderPair(pairs[0]) + Render(pairs[1..])
  }

  predicate Survives(p: Pair) {
    ':' !in p.key && NUL !in p.value
  }

  datatype Match = NoMatch | Match(pair: Pair, rest: string)

  /** The leftmost match of the cookie parser: a NUL, a key up to the next colon, a value up
      to the next NUL. Where the first start fails, every later one fails too. */
  function FirstMatch(s: string): (m: Match)
    ensures m.Match? ==> |m.rest| < |s| && Survives(m.pair)
  {
    var p := FirstIndex(s, NUL);
    if p == |s| then NoMatch
    else
      var afterNul := s[p + 1..];
      var q := FirstIndex(afterNul, ':');
      if q == |afterNul| then NoMatch
      else
        var afterColon := afterNul[q + 1..];
        var r := FirstIndex(afterColon, NUL);
        if r == |afterColon| then NoMatch else Match(Pair(afterNul[..q], afterColon[..r]), afterColon[r + 1..])
  }

  function ParsePairs(s: string): seq<Pair>
    decreases |s|
  {
    match FirstMatch(s)
    case NoMatch => []
    case Match(pair, rest) => [pair] + ParsePairs(rest)
  }

  /** Later pairs win. */
  function FromPairs(pairs: seq<Pair>): ViewContext {
    if pairs == [] then map[] else FromPairs(pairs[..|pairs| - 1])[pairs[|pairs| - 1].key := pairs[|pairs| - 1].value]
  }

  /** Flash.Get without clearing the cookie; a cookie that does not unescape reads as empty. */
  function ReadCookie(cookie: string): ViewContext {
    match Unescape(cookie)
    case None => map[]
    case Some(text) => FromPairs(ParsePairs(text))
  }

  // ---------------------------------------------------------------------
  // Pairs
  // ---------------------------------------------------------------------

  lemma FirstIndexInPrefix(a: string, tail: string, separator: char)
    requires separator !in a
    ensures FirstIndex(a + [separator] + tail, separator) == |a|
    ensures (a + [separator] + tail)[..|a|] == a && (a + [separator] + tail)[|a| + 1..] == tail
  {
    FirstIndexIsPrefix(a, tail, separator);
  }

  lemma FirstMatchOfPair(p: Pair, tail: string)
    requires Survives(p)
    ensures FirstMatch(RenderPair(p) + tail) == Match(p, tail)
  {
    var s := RenderPair(p) + tail;
    var afterNul := p.key + ":" + (p.value + [NUL] + tail);
    FirstIndexInPrefix("", afterNul, NUL);
    assert s == "" + [NUL] + afterNul;
    FirstIndexInPrefix(p.key, p.value + [NUL] + tail, ':');
    FirstIndexInPrefix(p.value, tail, NUL);
    hide FirstIndex;
    assert s[0 + 1..] == afterNul;
  }

  lemma {:induction false} ParseRendered(pairs: seq<Pair>)
    requires forall p :: p in pairs ==> Survives(p)
    ensures ParsePairs(Render(pairs)) == pairs
  {
    if pairs != [] {
      FirstMatchOfPair(pairs[0], Render(pairs[1..]));
      ParseRendered(pairs[1..]);
      hide FirstMatch, RenderPair;
      assert pairs == [pairs[0]] + pairs[1..];
    }
  }

  lemma {:induction false} ParsedSurvive(s: string)
    ensures forall p :: p in ParsePairs(s) ==> Survives(p)
    decreases |s|
  {
    hide FirstMatch, Survives;
    if FirstMatch(s).Match? {
      ParsedSurvive(FirstMatch(s).rest);
    }
  }

  /** One entry comes back unchanged exactly if its key has no colon and its value no NUL. */
  lemma EntrySurvivesExactly(p: Pair)
    ensures ParsePairs(RenderPair(p)) == [p] <==> Survives(p)
  {
    hide FirstMatch, Survives, RenderPair, ParsePairs;
    ParsedSurvive(RenderPair(p));
    if Survives(p) {
      ParseRendered([p]);
      assert [p][1..] == [] && RenderPair(p) + "" == RenderPair(p);
    } else {
      assert p in [p];
    }
  }

  // ---------------------------------------------------------------------
  // Contexts
  // ---------------------------------------------------------------------

  /** The entries of a context in some order. */
  ghost predicate Lists(pairs: seq<Pair>, data: ViewContext) {
    && (forall i, j :: 0 <= i < j < |pairs| ==> pairs[i].key != pairs[j].key)
    && (forall p :: p in pairs <==> p.key in data && data[p.key] == p.value)
  }

  lemma {:induction false} FromPairsMeaning(pairs: seq<Pair>, key: string)
    requires forall i, j :: 0 <= i < j < |pairs| ==> pairs[i].key != pairs[j].key
    ensures key in FromPairs(pairs) <==> exists p :: p in pairs && p.key == key
    ensures key in FromPairs(pairs) ==> Pair(key, FromPairs(pairs)[key]) in pairs
  {
    if pairs != [] {
      var front, last := pairs[..|pairs| - 1], pairs[|pairs| - 1];
      FromPairsMeaning(front, key);
      assert pairs == front + [last];
    }
  }

  lemma ListedContext(pairs: seq<Pair>, data: ViewContext)
    requires Lists(pairs, data)
    ensures FromPairs(pairs) == data
  {
    forall key
      ensures key in FromPairs(pairs) <==> key in data
      ensures key in data ==> FromPairs(pairs)[key] == data[key]
    {
      FromPairsMeaning(pairs, key);
      assert key in data ==> Pair(key, data[key]) in pairs;
    }
  }

  /** A rendering of a context, for some order of its map. */
  ghost predicate IsTextOf(text: string, data: ViewContext) {
    exists pairs :: Lists(pairs, data) && text == Render(pairs)
  }

  /** The cookie that setCookie can emit for a context. */
  ghost predicate IsCookieOf(cookie: string, data: ViewContext) {
    exists text :: IsTextOf(text, data) && cookie == Escape(text)
  }

  ghost predicate IsClean(data: ViewContext) {
    forall key :: key in data ==> ':' !in key && NUL !in data[key]
  }

  predicate IsCleanMessage(m: Message) {
    NUL !in m.kind && NUL !in m.title && NUL !in m.text
  }

  /** How entries are written: between NUL characters, with a colon after the key. */
  lemma TextIsWritten(text: string, data: ViewContext, key: string)
    requires IsTextOf(text, data)
    ensures data == map[] ==> text == ""
    ensures data.Keys == {key} ==> text == "\0" + key + ":" + data[key] + "\0"
  {
    var pairs :| Lists(pairs, data) && text == Render(pairs);
    if pairs != [] {
      assert pairs[0] in pairs;
    }
    if data.Keys == {key} {
      OneEntry(pairs, data, key);
      assert Render([pairs[0]][1..]) == "" && [pairs[0]][1..] == [];
    }
  }

  lemma OneEntry(pairs: seq<Pair>, data: ViewContext, key: string)
    requires Lists(pairs, data) && data.Keys == {key}
    ensures pairs == [Pair(key, data[key])]
  {
    assert |pairs| > 1 ==> pairs[0].key != pairs[1].key;
    assert key in data.Keys;
    assert Pair(key, data[key]) in pairs;
    forall i | 0 <= i < |pairs|
      ensures pairs[i].key == key && pairs[i].value == data[key]
    {
      assert pairs[i] in pairs;
      assert pairs[i].key in data.Keys;
    }
  }

  lemma {:induction false} ReadEntriesWerePairs(pairs: seq<Pair>)
    ensures forall key :: key in FromPairs(pairs) ==> Pair(key, FromPairs(pairs)[key]) in pairs
  {
    if pairs != [] {
      ReadEntriesWerePairs(pairs[..|pairs| - 1]);
      assert pairs == pairs[..|pairs| - 1] + [pairs[|pairs| - 1]];
    }
  }

  /** Whatever is read from a cookie is clean. */
  lemma CookiesReadClean(cookie: string)
    ensures IsClean(ReadCookie(cookie))
  {
    hide ParsePairs, FromPairs, Unescape;
    if Unescape(cookie).Some? {
      var pairs := ParsePairs(Unescape(cookie).value);
      ParsedSurvive(Unescape(cookie).value);
      ReadEntriesWerePairs(pairs);
      forall key | key in FromPairs(pairs)
        ensures ':' !in key && NUL !in FromPairs(pairs)[key]
      {
        assert Survives(Pair(key, FromPairs(pairs)[key]));
      }
    }
  }

  /** A context reads back from its cookie, whatever the order it was written in, exactly if
      it is clean. */
  lemma CookieRoundTrip(data: ViewContext, cookie: string)
    requires IsCookieOf(cookie, data)
    ensures ReadCookie(cookie) == data <==> IsClean(data)
  {
    CookiesReadClean(cookie);
    if IsClean(data) {
      var text :| IsTextOf(text, data) && cookie == Escape(text);
      var pairs :| Lists(pairs, data) && text == Render(pairs);
      UnescapeInvertsEscape(text);
      ParseRendered(pairs);
      ListedContext(pairs, data);
    }
  }

  // ---------------------------------------------------------------------
  // Flash messages across a request
  // ---------------------------------------------------------------------

  lemma MessageKeyIsClean(i: nat, f: Field)
    ensures ':' !in MessageKey(i, f)
  {
    DigitsAreClean(i);
    hide Format;
  }

  lemma DigitsAreClean(n: nat)
    ensures ':' !in Format(n) && NUL !in Format(n)
  {
    assert !IsDigit(':') && !IsDigit(NUL);
  }

  lemma {:induction false} EncodingIsClean(data: ViewContext, messages: seq<Message>)
    requires IsClean(data) && forall m :: m in messages ==> IsCleanMessage(m)
    ensures IsClean(EncodeMessages(data, messages))
  {
    hide MessageKey;
    if messages != [] {
      var last := |messages| - 1;
      EncodingIsClean(data, messages[..last]);
      assert messages[last] in messages;
      MessageKeyIsClean(last, Kind);
      MessageKeyIsClean(last, Title);
      MessageKeyIsClean(last, Text);
    }
  }

  lemma {:induction false} DecodedBelowAreClean(data: ViewContext, n: nat)
    requires IsClean(data)
    ensures forall m :: m in MessagesBelow(data, n) ==> IsCleanMessage(m)
  {
    hide MessageKey;
    if n > 0 {
      DecodedBelowAreClean(data, n - 1);
    }
  }

  lemma DecodedAreClean(data: ViewContext)
    requires IsClean(data)
    ensures forall m :: m in GetMessages(data) ==> IsCleanMessage(m)
  {
    hide Atoi;
    var count := Atoi(Read(data, COUNT_KEY));
    if count.Some? && count.value > 0 {
      DecodedBelowAreClean(data, count.value);
    }
  }

  lemma SetMessageKeepsClean(pending: ViewContext, m: Message, d: Defaults)
    requires IsClean(pending) && IsCleanMessage(m) && NUL !in d.title && NUL !in d.text
    ensures IsClean(SetMessage(pending, m, d))
  {
    hide GetMessages;
    var messages := GetMessages(pending) + [ApplyDefaults(m, d)];
    DecodedAreClean(pending);
    DigitsAreClean(|messages|);
    CountKeyIsClean();
    EncodingIsClean(WithoutToasts(pending)[COUNT_KEY := Format(|messages|)], messages);
  }

  lemma CountKeyIsClean()
    ensures ':' !in COUNT_KEY
  {
  }

  lemma {:induction false} SetMessagesKeepClean(pending: ViewContext, messages: seq<Message>, d: Defaults)
    requires IsClean(pending) && NUL !in d.title && NUL !in d.text
    requires forall m :: m in messages ==> IsCleanMessage(m)
    ensures IsClean(SetMessages(pending, messages, d))
  {
    hide SetMessage;
    if messages != [] {
      var last := |messages| - 1;
      assert messages[last] in messages;
      SetMessagesKeepClean(pending, messages[..last], d);
      SetMessageKeepsClean(SetMessages(pending, messages[..last], d), messages[last], d);
    }
  }

  /** Flash messages survive the redirect: after any sequence of SetMessage calls, on top of
      any clean pending context, the emitted cookie decodes to the messages that were pending
      and then exactly the set ones that are not all empty, in call order, for every order
      of the map and whatever stale toast keys were merged back. */
  lemma FlashRoundTrip(pending: ViewContext, messages: seq<Message>, d: Defaults, cookie: string)
    requires IsClean(pending) && NUL !in d.title && NUL !in d.text
    requires forall m :: m in messages ==> IsCleanMessage(m)
    requires IsCookieOf(cookie, SetMessages(pending, messages, d))
    ensures GetMessages(ReadCookie(cookie)) == GetMessages(pending) + NonEmpty(messages, d)
  {
    hide GetMessages, SetMessages, IsCookieOf, ReadCookie;
    SetMessagesKeepClean(pending, messages, d);
    CookieRoundTrip(SetMessages(pending, messages, d), cookie);
    SetMessagesAppend(pending, messages, d);
  }
}
