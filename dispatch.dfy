/**
 * The `ready` handler and the daily cron tick of index.js: find the target group,
 * advance the rotation through `getNextLink`, and send "📌 Today's link: <link>"
 * when there is a link. The link file and the cursor record are fields of `Bot`;
 * the transport is not: the outcome of each send is the `delivered` parameter, and
 * `effects` records, in order, every cursor write and every send attempt.
 */
module Dispatch {
  import opened Wrappers
  import opened LinkFile
  import opened Rotation

  /** A chat as `client.getChats()` lists it; `id` is `id._serialized`. */
  datatype Chat = Chat(name: string, isGroup: bool, id: string)

  predicate IsTarget(chat: Chat, groupName: string) {
    chat.isGroup && chat.name == groupName
  }

  /** Chat `i` is the first group named `groupName`. */
  predicate FirstTargetAt(chats: seq<Chat>, groupName: string, i: int) {
    0 <= i < |chats| && IsTarget(chats[i], groupName) &&
    forall j :: 0 <= j < i ==> !IsTarget(chats[j], groupName)
  }

  /** `chats.find(chat => chat.isGroup && chat.name === groupName)`: nothing when no chat
      is such a group, and otherwise the first one that is. */
  function FindGroup(chats: seq<Chat>, groupName: string): (r: Option<Chat>)
    ensures r.None? <==> forall i :: 0 <= i < |chats| ==> !IsTarget(chats[i], groupName)
    ensures r.Some? ==> exists i :: FirstTargetAt(chats, groupName, i) && chats[i] == r.value
    decreases |chats|
  {
    if chats == [] then None
    else if IsTarget(chats[0], groupName) then
      assert FirstTargetAt(chats, groupName, 0);
      Some(chats[0])
    else
      var r := FindGroup(chats[1..], groupName);
      FirstTargetShift(chats, groupName);
      r
  }

  lemma FirstTargetShift(chats: seq<Chat>, groupName: string)
    requires chats != [] && !IsTarget(chats[0], groupName)
    ensures forall i :: FirstTargetAt(chats[1..], groupName, i) ==> FirstTargetAt(chats, groupName, i + 1)
  {
    forall i | FirstTargetAt(chats[1..], groupName, i) ensures FirstTargetAt(chats, groupName, i + 1) {
      forall j | 0 <= j < i + 1 ensures !IsTarget(chats[j], groupName) {
        if j > 0 {
          assert chats[j] == chats[1..][j - 1];
        }
      }
    }
  }

  /** The fixed start of every message. */
  const LinkPrefix: string := "\U{1F4CC} Today's link: "

  /** `📌 Today's link: ${link}` */
  function Message(link: string): (text: string)
    ensures |text| == |LinkPrefix| + |link|
    ensures text[..|LinkPrefix|] == LinkPrefix && text[|LinkPrefix|..] == link
  {
    LinkPrefix + link
  }

  /** The link a message carries, if it has the message's form. */
  function LinkInMessage(text: string): Option<string> {
    if |text| >= |LinkPrefix| && text[..|LinkPrefix|] == LinkPrefix then Some(text[|LinkPrefix|..])
    else None
  }

  /** The message names its link: the link can be read back from it, so two
      different links never produce the same message. */
  lemma MessageCarriesLink(link: string, other: string)
    ensures LinkInMessage(Message(link)) == Some(link)
    ensures Message(link) == Message(other) ==> link == other
  {
    assert Message(link)[..|LinkPrefix|] == LinkPrefix;
    assert Message(link)[|LinkPrefix|..] == link;
    assert Message(other)[|LinkPrefix|..] == other;
  }

  /** An outward effect of the bot. */
  datatype Effect =
    | IndexSaved(value: int)                                        // `saveLastIndex(value)`
    | SendAttempted(chatId: string, text: string, delivered: bool)  // `client.sendMessage(chatId, text)`

  /** The cursor writes a call of `getNextLink` makes: one, unless the list is empty. */
  function Writes(p: Pick): seq<Effect> {
    if p.Picked? then [IndexSaved(p.slot + 1)] else []
  }

  /** What one delivery attempt does once the group id is known: `getNextLink()`, then,
      if it returned a link, `sendMessage` with the formatted text. */
  function DeliveryEffects(p: Pick, chatId: string, delivered: bool): seq<Effect> {
    Writes(p) + (if p.Link().Some? then [SendAttempted(chatId, Message(p.Link().value), delivered)] else [])
  }

  /** Every send attempt is immediately preceded by a cursor write. */
  predicate PersistBeforeSend(effects: seq<Effect>) {
    forall i :: 0 <= i < |effects| && effects[i].SendAttempted? ==> 0 < i && effects[i - 1].IndexSaved?
  }

  /** A delivery attempt sends at most one message, only when `getNextLink` returned a
      link, to the given chat, with that link in the text, and only after the cursor has
      been persisted; so appending one keeps the whole log ordered. Whether the send is
      delivered changes nothing but the recorded outcome. */
  lemma DeliveryOrdered(log: seq<Effect>, p: Pick, chatId: string, delivered: bool)
    requires PersistBeforeSend(log)
    ensures var e := DeliveryEffects(p, chatId, delivered);
      PersistBeforeSend(log + e) &&
      (p.Link().None? ==> forall i :: 0 <= i < |e| ==> !e[i].SendAttempted?) &&
      (p.Link().Some? ==> e == [IndexSaved(p.slot + 1), SendAttempted(chatId, Message(p.Link().value), delivered)])
  {
    var e := DeliveryEffects(p, chatId, delivered);
    var all := log + e;
    forall i | 0 <= i < |all| && all[i].SendAttempted? ensures 0 < i && all[i - 1].IndexSaved? {
      if i < |log| {
        assert all[i] == log[i];
        assert all[i - 1] == log[i - 1];
      }
    }
  }

  /** How the `ready` handler ends. */
  datatype ReadyOutcome =
    | GroupNotFound                             // logged; returns before `getNextLink`
    | Proceeded(groupId: string, failed: bool)  // `failed`: the awaited send rejected, which ends
                                                // the handler before its schedule registration

  /** How one run of the cron callback ends; every error is caught and logged. */
  datatype TickOutcome = NoLinkToSend | Sent(link: string) | SendFailed(link: string)

  class Bot {
    var linkFile: Option<string>  // link.txt; `None` when reading it throws
    var indexFile: CursorRecord   // linkIndex.json
    var effects: seq<Effect>      // cursor writes and send attempts, oldest first

    ghost predicate Valid()
      reads this
    {
      PersistBeforeSend(effects)
    }

    constructor (linkFile: Option<string>, indexFile: CursorRecord)
      ensures Valid()
      ensures this.linkFile == linkFile && this.indexFile == indexFile && effects == []
    {
      this.linkFile := linkFile;
      this.indexFile := indexFile;
      effects := [];
    }

    /** `saveLastIndex(index)`: overwrite the record. */
    method SaveLastIndex(index: int)
      requires Valid()
      modifies this
      ensures Valid()
      ensures indexFile == Saved(index) && linkFile == old(linkFile)
      ensures effects == old(effects) + [IndexSaved(index)]
    {
      indexFile := Saved(index);
      effects := effects + [IndexSaved(index)];
    }

    /** `getNextLink()`: read both files, and unless the list is empty select
        `links[lastIndex % links.length]` and persist that index plus one. */
    method GetNextLink() returns (link: Option<string>)
      requires Valid()
      modifies this
      ensures Valid() && linkFile == old(linkFile)
      ensures var p := Step(GetLinks(old(linkFile)), old(indexFile));
        link == p.Link() && indexFile == After(old(indexFile), p) &&
        effects == old(effects) + Writes(p)
    {
      var links := GetLinks(linkFile);
      if |links| == 0 {
        return None;
      }
      var lastIndex := GetLastIndex(indexFile);
      var nextIndex := JsRem(lastIndex, |links|);
      link := if 0 <= nextIndex then Some(links[nextIndex]) else None;
      SaveLastIndex(nextIndex + 1);
    }

    /** The body of the `ready` handler up to the schedule registration: look the group
        up among `chats`; if it is missing stop with nothing written or sent; otherwise
        advance the rotation and, if there is a link, send it to the group, whose send
        outcome the transport decides (`delivered`). */
    method OnReady(chats: seq<Chat>, groupName: string, delivered: bool) returns (r: ReadyOutcome)
      requires Valid()
      modifies this
      ensures Valid() && linkFile == old(linkFile)
      ensures FindGroup(chats, groupName).None? ==>
        r == GroupNotFound && indexFile == old(indexFile) && effects == old(effects)
      ensures FindGroup(chats, groupName).Some? ==>
        var id := FindGroup(chats, groupName).value.id;
        var p := Step(GetLinks(old(linkFile)), old(indexFile));
        r == Proceeded(id, p.Link().Some? && !delivered) &&
        indexFile == After(old(indexFile), p) &&
        effects == old(effects) + DeliveryEffects(p, id, delivered)
    {
      var group := FindGroup(chats, groupName);
      if group.None? {
        return GroupNotFound;
      }
      var groupId := group.value.id;
      ghost var p := Step(GetLinks(linkFile), indexFile);
      DeliveryOrdered(effects, p, groupId, delivered);
      var link := GetNextLink();
      if link.Some? {
        effects := effects + [SendAttempted(groupId, Message(link.value), delivered)];
      }
      r := Proceeded(groupId, link.Some? && !delivered);
    }

    /** One run of the daily cron callback for the group found by the `ready` handler:
        advance the rotation and send the link, if any; a failed send is caught, and the
        cursor has been advanced all the same. */
    method DailyTick(groupId: string, delivered: bool) returns (o: TickOutcome)
      requires Valid()
      modifies this
      ensures Valid() && linkFile == old(linkFile)
      ensures var p := Step(GetLinks(old(linkFile)), old(indexFile));
        o == (match p.Link()
              case None => NoLinkToSend
              case Some(l) => if delivered then Sent(l) else SendFailed(l)) &&
        indexFile == After(old(indexFile), p) &&
        effects == old(effects) + DeliveryEffects(p, groupId, delivered)
    {
      ghost var p := Step(GetLinks(linkFile), indexFile);
      DeliveryOrdered(effects, p, groupId, delivered);
      var link := GetNextLink();
      if link.Some? {
        effects := effects + [SendAttempted(groupId, Message(link.value), delivered)];
        o := if delivered then Sent(link.value) else SendFailed(link.value);
      } else {
        o := NoLinkToSend;
      }
    }
  }

  /** Three links one per line and no record yet: four ticks send the first, second,
      third and first link again, and a tick whose send fails still moves the
      rotation on. The ticks after the first are proved in `MiddleTicks` and
      `FourthTick`, so that each proof reasons about one or two ticks only. */
  method ThreeLinkScenario(a: string, b: string, c: string, groupId: string)
    returns (outcomes: seq<TickOutcome>, bot: Bot)
    requires IsLink(a) && IsLink(b) && IsLink(c)
    ensures outcomes == [Sent(a), SendFailed(b), Sent(c), Sent(a)]
    ensures bot.Valid() && bot.indexFile == Saved(1)
  {
    var links := [a, b, c];
    ParseJoin(links);
    bot := new Bot(Some(JoinLines(links)), NoFile);
    assert GetLinks(bot.linkFile) == links;
    var o1 := bot.DailyTick(groupId, true);
    assert o1 == Sent(a) && bot.indexFile == Saved(1);
    var o2, o3 := MiddleTicks(bot, a, b, c, groupId);
    var o4 := FourthTick(bot, a, b, c, groupId);
    outcomes := [o1, o2, o3, o4];
  }

  /** The second tick fails to deliver `b` and the third sends `c`; the record ends at 3. */
  method MiddleTicks(bot: Bot, a: string, b: string, c: string, groupId: string)
    returns (o2: TickOutcome, o3: TickOutcome)
    requires bot.Valid() && GetLinks(bot.linkFile) == [a, b, c] && bot.indexFile == Saved(1)
    modifies bot
    ensures o2 == SendFailed(b) && o3 == Sent(c)
    ensures bot.Valid() && bot.linkFile == old(bot.linkFile) && bot.indexFile == Saved(3)
  {
    var links := [a, b, c];
    assert Step(links, Saved(1)) == Picked(1, Some(b));
    o2 := bot.DailyTick(groupId, false);
    assert bot.indexFile == Saved(2);
    assert Step(links, Saved(2)) == Picked(2, Some(c));
    o3 := bot.DailyTick(groupId, true);
  }

  /** From record 3 the rotation wraps around: the fourth tick sends `a` and stores 1. */
  method FourthTick(bot: Bot, a: string, b: string, c: string, groupId: string) returns (o4: TickOutcome)
    requires bot.Valid() && GetLinks(bot.linkFile) == [a, b, c] && bot.indexFile == Saved(3)
    modifies bot
    ensures o4 == Sent(a)
    ensures bot.Valid() && bot.linkFile == old(bot.linkFile) && bot.indexFile == Saved(1)
  {
    assert Step([a, b, c], Saved(3)) == Picked(0, Some(a));
    o4 := bot.DailyTick(groupId, true);
  }
}
