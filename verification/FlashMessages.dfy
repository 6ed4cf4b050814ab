/** Flash messages as the keys of a view context: encoding, decoding, appending. */
module FlashMessages {
  import opened Wrappers
  import opened Decimal
  import opened QueryEscaping

  /** A view context whose values are strings. */
  type ViewContext = map<string, string>

  datatype Message = Message(kind: string, title: string, text: string)
  {
    predicate IsEmpty() {
      kind == "" && title == "" && text == ""
    }
  }

  const COUNT_KEY := "toast_count"
  const TYPE_KEY := "toast_type"
  const TITLE_KEY := "toast_title"
  const TEXT_KEY := "toast_text"
  const PREFIX := "toast_"

  datatype Field = Kind | Title | Text

  function FieldName(f: Field): (name: string)
    ensures '_' !in name && name != ""
  {
    match f
    case Kind => "type"
    case Title => "title"
    case Text => "text"
  }

  /** fmt.Sprintf("toast_%d_type", i) and its siblings */
  function MessageKey(i: nat, f: Field): string {
    PREFIX + Format(i) + "_" + FieldName(f)
  }

  function FieldOf(m: Message, f: Field): string {
    match f
    case Kind => m.kind
    case Title => m.title
    case Text => m.text
  }

  /** strconv.Atoi, without the 64-bit bound. */
  function Atoi(s: string): Option<int> {
    var digits := Parse(if s != "" && (s[0] == '+' || s[0] == '-') then s[1..] else s);
    if digits.None? then None
    else
      var n: int := digits.value;
      Some(if s[0] == '-' then -n else n)
  }

  function MessageAt(data: ViewContext, i: nat): Message {
    Message(Read(data, MessageKey(i, Kind)), Read(data, MessageKey(i, Title)), Read(data, MessageKey(i, Text)))
  }

  /** The messages below an index that are not empty. */
  function MessagesBelow(data: ViewContext, count: nat): seq<Message> {
    if count == 0 then []
    else
      var m := MessageAt(data, count - 1);
      MessagesBelow(data, count - 1) + if m.IsEmpty() then [] else [m]
  }

  /** GetMessagesFrom, whose ok is that there is a message. */
  function GetMessages(data: ViewContext): seq<Message> {
    if COUNT_KEY !in data && Read(data, TYPE_KEY) != "" then
      [Message(data[TYPE_KEY], Read(data, TITLE_KEY), Read(data, TEXT_KEY))]
    else
      match Atoi(Read(data, COUNT_KEY))
      case None => []
      case Some(count) => if count <= 0 then [] else MessagesBelow(data, count)
  }

  predicate IsToastKey(key: string) {
    PREFIX <= key
  }

  /** Writes the three keys of each message at its index. */
  function EncodeMessages(data: ViewContext, messages: seq<Message>): ViewContext {
    if messages == [] then data
    else
      var last := |messages| - 1;
      EncodeMessages(data, messages[..last])
        [MessageKey(last, Kind) := messages[last].kind]
        [MessageKey(last, Title) := messages[last].title]
        [MessageKey(last, Text) := messages[last].text]
  }

  function WithoutToasts(data: ViewContext): (rest: ViewContext) {
    map key | key in data && !IsToastKey(key) :: data[key]
  }

  function AddMessage(data: ViewContext, m: Message): ViewContext {
    var messages := GetMessages(data) + [m];
    EncodeMessages(WithoutToasts(data)[COUNT_KEY := Format(|messages|)], messages)
  }

  datatype Defaults = Defaults(title: string, text: string)

  function ApplyDefaults(m: Message, d: Defaults): Message {
    Message(m.kind, if m.title == "" then d.title else m.title, if m.text == "" then d.text else m.text)
  }

  /** SetMessage: what is pending in the request afterwards. The new context is merged over
      the pending one, so stale toast keys come back. */
  function SetMessage(pending: ViewContext, m: Message, d: Defaults): ViewContext {
    pending + AddMessage(pending, ApplyDefaults(m, d))
  }

  function SetMessages(pending: ViewContext, messages: seq<Message>, d: Defaults): ViewContext {
    if messages == [] then pending
    else SetMessage(SetMessages(pending, messages[..|messages| - 1], d), messages[|messages| - 1], d)
  }

  function NonEmpty(messages: seq<Message>, d: Defaults): seq<Message> {
    if messages == [] then []
    else
      var m := ApplyDefaults(messages[|messages| - 1], d);
      NonEmpty(messages[..|messages| - 1], d) + if m.IsEmpty() then [] else [m]
  }

  // ---------------------------------------------------------------------
  // Keys do not collide
  // ---------------------------------------------------------------------

  lemma KeyAfterPrefix(i: nat, f: Field, prefix: string)
    requires prefix == PREFIX
    ensures MessageKey(i, f) == prefix + (Format(i) + "_" + FieldName(f))
    ensures MessageKey(i, f)[|prefix|..] == Format(i) + "_" + FieldName(f)
  {
  }

  lemma NumbersHaveNoUnderscore(n: nat)
    ensures '_' !in Format(n)
  {
    assert !IsDigit('_');
  }

  lemma MessageKeysDiffer(i: nat, f: Field, j: nat, g: Field)
    ensures MessageKey(i, f) == MessageKey(j, g) <==> i == j && f == g
  {
    if MessageKey(i, f) == MessageKey(j, g) {
      KeyAfterPrefix(i, f, PREFIX);
      KeyAfterPrefix(j, g, PREFIX);
      NumbersHaveNoUnderscore(i);
      NumbersHaveNoUnderscore(j);
      SeparatorCuts(Format(i), Format(j), FieldName(f), FieldName(g), '_');
      FormatIsInjective(i, j);
    }
  }

  lemma CountKeyDiffers(i: nat, f: Field)
    ensures MessageKey(i, f) != COUNT_KEY
  {
    KeyAfterPrefix(i, f, PREFIX);
    var digits := Format(i);
    assert (digits + "_" + FieldName(f))[0] == digits[0] && digits[0] in digits;
    assert COUNT_KEY[|PREFIX|] == 'c';
  }

  // ---------------------------------------------------------------------
  // Decoding what was encoded
  // ---------------------------------------------------------------------

  lemma {:induction false} EncodedMessages(data: ViewContext, messages: seq<Message>, i: nat, f: Field)
    requires i < |messages|
    ensures var e := EncodeMessages(data, messages);
            MessageKey(i, f) in e && e[MessageKey(i, f)] == FieldOf(messages[i], f)
  {
    hide MessageKey;
    var last := |messages| - 1;
    MessageKeysDiffer(i, f, last, Kind);
    MessageKeysDiffer(i, f, last, Title);
    MessageKeysDiffer(i, f, last, Text);
    if i < last {
      EncodedMessages(data, messages[..last], i, f);
    }
  }

  lemma {:induction false} EncodingKeepsCount(data: ViewContext, messages: seq<Message>, key: string)
    requires key == COUNT_KEY && key in data
    ensures var e := EncodeMessages(data, messages); key in e && e[key] == data[key]
  {
    hide MessageKey;
    if messages != [] {
      var last := |messages| - 1;
      EncodingKeepsCount(data, messages[..last], key);
      CountKeyDiffers(last, Kind);
      CountKeyDiffers(last, Title);
      CountKeyDiffers(last, Text);
    }
  }

  function DropEmpty(messages: seq<Message>): seq<Message> {
    if messages == [] then []
    else
      var m := messages[|messages| - 1];
      DropEmpty(messages[..|messages| - 1]) + if m.IsEmpty() then [] else [m]
  }

  lemma {:induction false} NothingToDrop(messages: seq<Message>)
    requires forall m :: m in messages ==> !m.IsEmpty()
    ensures DropEmpty(messages) == messages
  {
    if messages != [] {
      NothingToDrop(messages[..|messages| - 1]);
    }
  }

  lemma {:induction false} MessagesBelowMeaning(data: ViewContext, messages: seq<Message>, n: nat)
    requires n <= |messages| && forall i :: 0 <= i < n ==> MessageAt(data, i) == messages[i]
    ensures MessagesBelow(data, n) == DropEmpty(messages[..n])
  {
    hide MessageAt;
    if n > 0 {
      MessagesBelowMeaning(data, messages, n - 1);
      assert messages[..n][..n - 1] == messages[..n - 1];
    }
  }

  lemma {:induction false} MessagesBelowAreNonEmpty(data: ViewContext, n: nat)
    ensures forall m :: m in MessagesBelow(data, n) ==> !m.IsEmpty()
  {
    hide MessageAt;
    if n > 0 {
      MessagesBelowAreNonEmpty(data, n - 1);
    }
  }

  lemma DecodedAreNonEmpty(data: ViewContext)
    ensures forall m :: m in GetMessages(data) ==> !m.IsEmpty()
  {
    hide MessageAt, Atoi;
    var count := Atoi(Read(data, COUNT_KEY));
    if count.Some? && count.value > 0 {
      MessagesBelowAreNonEmpty(data, count.value);
    }
  }

  lemma AtoiOfFormat(n: nat)
    ensures Atoi(Format(n)) == Some(n)
  {
    ParseFormat(n);
    assert Format(n)[0] in Format(n);
  }

  /** Numbers may carry a sign; anything else than digits behind it is no number. */
  lemma AtoiMeaning(n: nat, s: string)
    ensures Atoi("+" + Format(n)).Some? && Atoi("+" + Format(n)).value == n
    ensures Atoi("-" + Format(n)).Some? && Atoi("-" + Format(n)).value + n == 0
    ensures (exists k :: 0 < k < |s| && !IsDigit(s[k])) || s in ["", "+", "-"] ==> Atoi(s) == None
    ensures s != "" && !IsDigit(s[0]) && s[0] != '+' && s[0] != '-' ==> Atoi(s) == None
  {
    ParseFormat(n);
    assert ("+" + Format(n))[1..] == Format(n) && ("-" + Format(n))[1..] == Format(n);
    if k :| 0 < k < |s| && !IsDigit(s[k]) {
      assert s[k] in s && s[1..][k - 1] in s[1..];
    }
    assert s != "" ==> s[0] in s;
  }

  /** A context that holds the count and the keys of these messages, whatever else it
      holds, decodes to those of them that are not empty. */
  lemma CountedMessagesDecode(data: ViewContext, messages: seq<Message>, key: string)
    requires key == COUNT_KEY && key in data && data[key] == Format(|messages|)
    requires forall i, f: Field :: 0 <= i < |messages| ==> Read(data, MessageKey(i, f)) == FieldOf(messages[i], f)
    ensures GetMessages(data) == DropEmpty(messages)
  {
    AtoiOfFormat(|messages|);
    forall i | 0 <= i < |messages|
      ensures MessageAt(data, i) == messages[i]
    {
      assert Read(data, MessageKey(i, Kind)) == FieldOf(messages[i], Kind);
      assert Read(data, MessageKey(i, Title)) == FieldOf(messages[i], Title);
      assert Read(data, MessageKey(i, Text)) == FieldOf(messages[i], Text);
    }
    MessagesBelowMeaning(data, messages, |messages|);
    assert messages[..|messages|] == messages;
    hide MessageAt, Atoi, Format;
    assert DropEmpty([]) == [];
  }

  /** Whatever is pending, stale toast keys included, setting a message appends it to the
      messages that decode, unless all of its fields are empty. */
  lemma SetMessageAppends(pending: ViewContext, m: Message, d: Defaults)
    ensures GetMessages(SetMessage(pending, m, d))
         == GetMessages(pending) + if ApplyDefaults(m, d).IsEmpty() then [] else [ApplyDefaults(m, d)]
  {
    hide ApplyDefaults, MessageKey, GetMessages, WithoutToasts, Format;
    var given := ApplyDefaults(m, d);
    var messages := GetMessages(pending) + [given];
    var base := WithoutToasts(pending)[COUNT_KEY := Format(|messages|)];
    var after := SetMessage(pending, m, d);
    EncodingKeepsCount(base, messages, COUNT_KEY);
    forall i, f: Field | 0 <= i < |messages|
      ensures Read(after, MessageKey(i, f)) == FieldOf(messages[i], f)
    {
      EncodedMessages(base, messages, i, f);
    }
    CountedMessagesDecode(after, messages, COUNT_KEY);
    DecodedAreNonEmpty(pending);
    NothingToDrop(GetMessages(pending));
    assert messages[..|messages| - 1] == GetMessages(pending);
  }

  /** What the defaults do to a message, field by field. */
  lemma DefaultsMeaning(m: Message, d: Defaults)
    ensures var given := ApplyDefaults(m, d);
      && given.kind == m.kind
      && (m.title != "" ==> given.title == m.title) && (m.title == "" ==> given.title == d.title)
      && (m.text != "" ==> given.text == m.text) && (m.text == "" ==> given.text == d.text)
      && (given.IsEmpty() <==> m.kind == "" && m.title == "" && m.text == "" && d.title == "" && d.text == "")
  {
  }

  /** The keys of the flash protocol. */
  lemma KeyNames(i: nat)
    ensures MessageKey(i, Kind) == "toast_" + Format(i) + "_type"
    ensures MessageKey(i, Title) == "toast_" + Format(i) + "_title"
    ensures MessageKey(i, Text) == "toast_" + Format(i) + "_text"
  {
  }

  lemma KeysArePrefixed(i: nat, f: Field)
    ensures IsToastKey(MessageKey(i, f))
  {
    KeyAfterPrefix(i, f, PREFIX);
  }

  /** Encoding writes the keys of its messages and no other. */
  lemma {:induction false} EncodingKeepsOthers(data: ViewContext, messages: seq<Message>, key: string)
    requires forall i, f: Field :: 0 <= i < |messages| ==> key != MessageKey(i, f)
    ensures var e := EncodeMessages(data, messages); (key in e <==> key in data) && (key in data ==> e[key] == data[key])
  {
    hide MessageKey;
    if messages != [] {
      EncodingKeepsOthers(data, messages[..|messages| - 1], key);
    }
  }

  /** Setting a message leaves everything else in the pending context as it was. */
  lemma SetMessageKeepsData(pending: ViewContext, m: Message, d: Defaults, key: string)
    requires !("toast_" <= key)
    ensures var after := SetMessage(pending, m, d);
      (key in after <==> key in pending) && (key in pending ==> after[key] == pending[key])
  {
    hide GetMessages, ApplyDefaults, Format;
    var messages := GetMessages(pending) + [ApplyDefaults(m, d)];
    forall i, f: Field | 0 <= i < |messages|
      ensures key != MessageKey(i, f)
    {
      KeysArePrefixed(i, f);
    }
    hide MessageKey;
    EncodingKeepsOthers(WithoutToasts(pending)[COUNT_KEY := Format(|messages|)], messages, key);
  }

  /** A context written by addMessageToContext holds no flash key but the count and those of
      its messages, and keeps everything else. */
  lemma AddMessageMeaning(data: ViewContext, m: Message, key: string)
    ensures var after, n := AddMessage(data, m), |GetMessages(data)| + 1;
      && (key in after && "toast_" <= key ==>
            key == "toast_count" || exists i, f: Field :: 0 <= i < n && key == MessageKey(i, f))
      && (!("toast_" <= key) ==> (key in after <==> key in data) && (key in data ==> after[key] == data[key]))
      && "toast_count" in after && after["toast_count"] == Format(n)
  {
    hide GetMessages, Format;
    var messages := GetMessages(data) + [m];
    var base := WithoutToasts(data)[COUNT_KEY := Format(|messages|)];
    forall i, f: Field | 0 <= i < |messages|
      ensures IsToastKey(MessageKey(i, f))
    {
      KeysArePrefixed(i, f);
    }
    hide MessageKey;
    EncodingKeepsCount(base, messages, COUNT_KEY);
    if forall i, f: Field :: 0 <= i < |messages| ==> key != MessageKey(i, f) {
      EncodingKeepsOthers(base, messages, key);
    }
  }

  /** A context without a count, but with the keys of one message, decodes to that message. */
  lemma SingleMessageDecodes(data: ViewContext, count: string, kind: string, title: string, text: string)
    requires count == "toast_count" && kind == "toast_type" && title == "toast_title" && text == "toast_text"
    requires count !in data && kind in data && data[kind] != ""
    ensures GetMessages(data) == [Message(data[kind], if title in data then data[title] else "", if text in data then data[text] else "")]
  {
  }

  /** After any sequence of calls the pending context decodes to the messages it held
      before and then, in call order, those set that are not all empty. */
  lemma {:induction false} SetMessagesAppend(pending: ViewContext, messages: seq<Message>, d: Defaults)
    ensures GetMessages(SetMessages(pending, messages, d)) == GetMessages(pending) + NonEmpty(messages, d)
  {
    hide GetMessages, SetMessage, ApplyDefaults;
    if messages != [] {
      var last := |messages| - 1;
      SetMessagesAppend(pending, messages[..last], d);
      SetMessageAppends(SetMessages(pending, messages[..last], d), messages[last], d);
    }
  }
}
