/**
 * The channel registry `class_info`: channel title to invite link and chat
 * id. It is changed by `/register` and `/delete` posts in a channel, read
 * when a reminder fires and listed as buttons for `/classes`.
 */
module Registry {
  import opened Wrappers
  import Text

  datatype Entry = Entry(inviteLink: string, channelId: int)

  /** A message handed to the messaging platform. */
  datatype Sent = Sent(chatId: int, text: string)

  /**
   * What a job function returns to the scheduler: CancelJob removes the job
   * once it has fired; KeepJob stands for any other return value, after
   * which the scheduler keeps the job. `send_reminder` only returns CancelJob.
   */
  datatype JobOutcome = CancelJob | KeepJob

  /** An inline keyboard button that opens a channel's invite link. */
  datatype Button = Button(text: string, url: string)

  /** The branch `manage_channel` takes on a channel post. */
  datatype Command = RegisterCmd | DeleteCmd | NoCommand | WrongPassword

  /** What `manage_channel` did: its confirmation reply, or the KeyError of `dict.pop`. */
  datatype ManageResult = Registered | Deleted | KeyError | WrongPasswordReply | Ignored

  const REGISTER: string := "/register"
  const DELETE: string := "/delete"

  /**
   * The gate of `manage_channel`: the password must occur in the text, and
   * then "/register" is looked for before "/delete".
   */
  function Classify(text: string, password: string): (c: Command)
    ensures c == WrongPassword <==> !Text.Mentions(text, password)
    ensures c == RegisterCmd <==> Text.Mentions(text, password) && Text.Mentions(text, REGISTER)
    ensures c == DeleteCmd <==>
      Text.Mentions(text, password) && !Text.Mentions(text, REGISTER) && Text.Mentions(text, DELETE)
  {
    if !Text.Contains(text, password) then WrongPassword
    else if Text.Contains(text, REGISTER) then RegisterCmd
    else if Text.Contains(text, DELETE) then DeleteCmd
    else NoCommand
  }

  predicate Distinct(s: seq<string>)
  {
    forall i, j :: 0 <= i < j < |s| ==> s[i] != s[j]
  }

  /** The key order after `pop(x)`: every occurrence of x is taken out. */
  function Without(s: seq<string>, x: string): (r: seq<string>)
    ensures forall y :: y in r <==> y in s && y != x
    ensures x !in s ==> r == s
  {
    if s == [] then []
    else if s[0] == x then Without(s[1..], x)
    else [s[0]] + Without(s[1..], x)
  }

  lemma DistinctTail(s: seq<string>)
    requires Distinct(s) && s != []
    ensures Distinct(s[1..]) && s[0] !in s[1..]
  {
  }

  /**
   * In a list without repetitions, taking x out removes exactly the one
   * position holding it and keeps the others in order, without repetitions.
   */
  lemma {:induction false} WithoutAt(s: seq<string>, x: string, i: int)
    requires Distinct(s) && 0 <= i < |s| && s[i] == x
    ensures Without(s, x) == s[..i] + s[i + 1..]
    ensures Distinct(Without(s, x))
  {
    DistinctTail(s);
    if i == 0 {
      assert s[..i] + s[i + 1..] == s[1..];
    } else {
      WithoutAt(s[1..], x, i - 1);
      assert s[..i] == [s[0]] + s[1..][..i - 1];
      assert s[i + 1..] == s[1..][i..];
      var r := Without(s, x);
      assert r == [s[0]] + Without(s[1..], x);
      forall k, l | 0 <= k < l < |r| ensures r[k] != r[l] {
        if k == 0 {
          assert r[l] in Without(s[1..], x);
        } else {
          assert r[k] == Without(s[1..], x)[k - 1] && r[l] == Without(s[1..], x)[l - 1];
        }
      }
    }
  }

  /** A list without repetitions has as many elements as it has distinct members. */
  lemma {:induction false} DistinctCardinality(s: seq<string>)
    requires Distinct(s)
    ensures |set x | x in s| == |s|
  {
    if s != [] {
      DistinctTail(s);
      DistinctCardinality(s[1..]);
      assert (set x | x in s) == {s[0]} + (set x | x in s[1..]);
      assert s[0] !in (set x | x in s[1..]);
    }
  }

  class ChannelRegistry {
    /** `class_info`: channel title to its entry. */
    var entries: map<string, Entry>
    /** The keys of `entries` in insertion order, which is the order Python iterates a dict in. */
    var order: seq<string>

    ghost predicate Valid()
      reads this
    {
      Distinct(order) && forall name :: name in entries <==> name in order
    }

    /** `class_info = dict()`. */
    constructor ()
      ensures Valid() && entries == map[] && order == []
    {
      entries := map[];
      order := [];
    }

    /**
     * `class_info[title] = entry`: last write wins, other keys are unchanged,
     * and a key already present keeps its place in the iteration order.
     */
    method Register(title: string, entry: Entry)
      requires Valid()
      modifies this
      ensures Valid()
      ensures entries == old(entries)[title := entry]
      ensures order == if title in old(entries) then old(order) else old(order) + [title]
    {
      if title !in entries {
        order := order + [title];
      }
      entries := entries[title := entry];
    }

    /**
     * `class_info.pop(title)` without a default: an absent title is an
     * error (`found` is false) and changes nothing.
     */
    method Delete(title: string) returns (found: bool)
      requires Valid()
      modifies this
      ensures Valid()
      ensures found <==> title in old(entries)
      ensures entries == old(entries) - {title}
      ensures order == Without(old(order), title)
    {
      found := title in entries;
      if found {
        var i :| 0 <= i < |order| && order[i] == title;
        WithoutAt(order, title, i);
      }
      entries := entries - {title};
      order := Without(order, title);
    }

    /**
     * `manage_channel` on a post with text `text` in the channel titled
     * `title` with chat id `chatId`; `inviteLink` is what the platform
     * exports for that chat.
     */
    method ManageChannel(text: string, password: string, title: string, chatId: int, inviteLink: string)
      returns (r: ManageResult)
      requires Valid()
      modifies this
      ensures Valid()
      ensures Classify(text, password) == RegisterCmd ==>
        && r == Registered && entries == old(entries)[title := Entry(inviteLink, chatId)]
        && order == if title in old(entries) then old(order) else old(order) + [title]
      ensures Classify(text, password) == DeleteCmd && title in old(entries) ==>
        r == Deleted && entries == old(entries) - {title} && order == Without(old(order), title)
      ensures Classify(text, password) == DeleteCmd && title !in old(entries) ==>
        r == KeyError && entries == old(entries) && order == old(order)
      ensures Classify(text, password) == WrongPassword ==>
        r == WrongPasswordReply && entries == old(entries) && order == old(order)
      ensures Classify(text, password) == NoCommand ==>
        r == Ignored && entries == old(entries) && order == old(order)
    {
      match Classify(text, password)
      case RegisterCmd =>
        Register(title, Entry(inviteLink, chatId));
        r := Registered;
      case DeleteCmd =>
        var found := Delete(title);
        r := if found then Deleted else KeyError;
      case WrongPassword =>
        r := WrongPasswordReply;
      case NoCommand =>
        r := Ignored;
    }

    /**
     * `send_reminder`: a message goes out exactly when the channel is
     * registered, to that channel's chat; the job is cancelled either way.
     */
    method SendReminder(channelName: string, messageText: string) returns (sent: Option<Sent>, outcome: JobOutcome)
      ensures sent.Some? <==> channelName in entries
      ensures channelName in entries ==> sent.value == Sent(entries[channelName].channelId, messageText)
      ensures outcome == CancelJob
    {
      if channelName in entries {
        sent := Some(Sent(entries[channelName].channelId, messageText));
      } else {
        sent := None;
      }
      outcome := CancelJob;
    }

    /**
     * `create_buttons`: one button per registered channel, in iteration
     * order, labelled with the title and opening the invite link.
     */
    method CreateButtons() returns (buttons: seq<Button>)
      requires Valid()
      ensures |buttons| == |entries| == |order|
      ensures forall k :: 0 <= k < |buttons| ==> buttons[k].text == order[k]
      ensures forall k :: 0 <= k < |buttons| ==>
        buttons[k].text in entries && buttons[k] == Button(buttons[k].text, entries[buttons[k].text].inviteLink)
      ensures forall name :: name in entries ==> exists k :: 0 <= k < |buttons| && buttons[k].text == name
      ensures forall k, l :: 0 <= k < l < |buttons| ==> buttons[k].text != buttons[l].text
    {
      buttons := [];
      var i := 0;
      while i < |order|
        invariant 0 <= i <= |order|
        invariant |buttons| == i
        invariant forall k :: 0 <= k < i ==> buttons[k] == Button(order[k], entries[order[k]].inviteLink)
      {
        var name := order[i];
        buttons := buttons + [Button(name, entries[name].inviteLink)];
        i := i + 1;
      }
      DistinctCardinality(order);
      assert entries.Keys == set x | x in order;
      forall name | name in entries
        ensures exists k :: 0 <= k < |buttons| && buttons[k].text == name
      {
        var k :| 0 <= k < |order| && order[k] == name;
        assert buttons[k].text == name;
      }
    }
  }
}
