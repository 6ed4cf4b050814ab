/** The flash object at work on a request: it emits the cookie and stages what is pending. */
module Flash {
  import opened Wrappers
  import opened Decimal
  import opened QueryEscaping
  import opened FlashMessages
  import opened FlashCookie

  /** What flash touches of a request context: its cookies and its locals. */
  class RequestContext {
    var received: string
    var emitted: Option<string>
    var pending: Option<ViewContext>

    function Pending(): ViewContext
      reads this
    {
      if pending.Some? then pending.value else map[]
    }

    constructor (received: string)
      ensures this.received == received && emitted == None && pending == None
    {
      this.received, emitted, pending := received, None, None;
    }
  }

  lemma {:induction false} RenderAppend(pairs: seq<Pair>, p: Pair)
    ensures Render(pairs + [p]) == Render(pairs) + RenderPair(p)
  {
    hide RenderPair;
    if pairs == [] {
      assert [p][1..] == [];
    } else {
      RenderAppend(pairs[1..], p);
      assert (pairs + [p])[1..] == pairs[1..] + [p];
    }
  }

  /** The string that setCookie builds, over the entries in whatever order they come. */
  method BuildCookieText(data: ViewContext) returns (text: string)
    ensures IsTextOf(text, data)
  {
    text := "";
    ghost var pairs := [];
    var remaining := data.Keys;
    while remaining != {}
      invariant remaining <= data.Keys && text == Render(pairs)
      invariant forall i, j :: 0 <= i < j < |pairs| ==> pairs[i].key != pairs[j].key
      invariant forall p :: p in pairs <==> p.key in data && p.key !in remaining && data[p.key] == p.value
      decreases |remaining|
    {
      var key :| key in remaining;
      remaining := remaining - {key};
      RenderAppend(pairs, Pair(key, data[key]));
      pairs := pairs + [Pair(key, data[key])];
      text := text + ([NUL] + key + ":" + data[key] + [NUL]);
    }
    assert Lists(pairs, data);
  }

  method GetMessagesFrom(data: ViewContext) returns (messages: seq<Message>)
    ensures messages == GetMessages(data)
  {
    hide MessageKey;
    if COUNT_KEY !in data && Read(data, TYPE_KEY) != "" {
      return [Message(data[TYPE_KEY], Read(data, TITLE_KEY), Read(data, TEXT_KEY))];
    }
    var count := Atoi(Read(data, COUNT_KEY));
    if count.None? || count.value <= 0 {
      return [];
    }
    messages := [];
    for i := 0 to count.value
      invariant messages == MessagesBelow(data, i)
    {
      var m := Message(Read(data, MessageKey(i, Kind)), Read(data, MessageKey(i, Title)), Read(data, MessageKey(i, Text)));
      if m.kind == "" && m.title == "" && m.text == "" {
        continue;
      }
      messages := messages + [m];
    }
  }

  /** addMessageToContext on its clone of the context. */
  method AddMessageToContext(data: ViewContext, m: Message) returns (out: ViewContext)
    ensures out == AddMessage(data, m)
  {
    hide MessageKey, IsToastKey, GetMessages, Format;
    out := data;
    var existing := GetMessagesFrom(out);
    existing := existing + [m];
    out := DropToastKeys(out);
    out := out[COUNT_KEY := Format(|existing|)];
    ghost var base := out;
    for i := 0 to |existing|
      invariant out == EncodeMessages(base, existing[..i])
    {
      assert existing[..i + 1][..i] == existing[..i] && existing[..i + 1][i] == existing[i];
      out := out[MessageKey(i, Kind) := existing[i].kind];
      out := out[MessageKey(i, Title) := existing[i].title];
      out := out[MessageKey(i, Text) := existing[i].text];
    }
    assert existing[..|existing|] == existing;
  }

  method DropToastKeys(data: ViewContext) returns (out: ViewContext)
    ensures out == WithoutToasts(data)
  {
    hide IsToastKey;
    out := data;
    var remaining := data.Keys;
    while remaining != {}
      invariant remaining <= data.Keys
      invariant forall key :: key in out <==> key in data && (key in remaining || !IsToastKey(key))
      invariant forall key :: key in out ==> out[key] == data[key]
      decreases |remaining|
    {
      var key :| key in remaining;
      remaining := remaining - {key};
      if IsToastKey(key) {
        out := out - {key};
      }
    }
  }

  class FlashStore {
    const defaults: Defaults

    constructor (defaults: Defaults)
      ensures this.defaults == defaults
    {
      this.defaults := defaults;
    }

    /** setCookie: the data over what is pending goes into the cookie and stays pending. */
    method SetCookie(c: RequestContext, data: ViewContext)
      modifies c
      ensures c.pending == Some(old(c.Pending()) + data) && c.received == old(c.received)
      ensures old(c.pending).None? ==> c.pending == Some(data)
      ensures old(c.pending).Some? ==> c.pending == Some(old(c.pending).value + data)
      ensures c.emitted.Some? && IsCookieOf(c.emitted.value, c.pending.value)
    {
      var merged := c.Pending() + data;
      assert map[] + data == data;
      var text := BuildCookieText(merged);
      c.emitted := Some(Escape(text));
      c.pending := Some(merged);
    }

    method SetMessage(c: RequestContext, m: Message)
      modifies c
      ensures c.pending == Some(FlashMessages.SetMessage(old(c.Pending()), m, defaults)) && c.received == old(c.received)
      ensures old(c.pending).None? ==> c.pending == Some(FlashMessages.SetMessage(map[], m, defaults))
      ensures old(c.pending).Some? ==> c.pending == Some(FlashMessages.SetMessage(old(c.pending).value, m, defaults))
      ensures c.emitted.Some? && IsCookieOf(c.emitted.value, c.Pending())
    {
      hide AddMessage, ApplyDefaults, IsCookieOf;
      var next := AddMessageToContext(c.Pending(), ApplyDefaults(m, defaults));
      SetCookie(c, next);
    }

    /** Get: the received cookie is parsed, and cleared together with what is pending. */
    method Get(c: RequestContext) returns (data: ViewContext)
      modifies c
      ensures data == ReadCookie(old(c.received))
      ensures c.received == old(c.received)
      ensures old(c.received) != "" ==> c.emitted == Some("") && c.pending == None
      ensures old(c.received) == "" ==> c.emitted == old(c.emitted) && c.pending == old(c.pending)
    {
      if c.received == "" {
        return map[];
      }
      data := ReadCookie(c.received);
      c.emitted := Some("");
      c.pending := None;
    }
  }
}
