/** The student records behind the bot's `/register`, `/notify`,
    `/unnotify` and `/unregister` commands and the `is_registered` gate
    (bot.py). The student table is an in-memory map keyed by Telegram
    chat id; the queries on it (`student_exists`, `student_is_registered`,
    `student_is_notified`, `update_student_field`) are read off the map,
    and whether `insert_student` succeeds is an input. */
module Students {
  import opened Wrappers

  /** A row of the `student` table. */
  datatype Student = Student(
    id: nat,
    chatId: int,
    username: string,
    fullName: string,
    registered: bool,
    notify: bool)

  /** The student table, keyed by chat id. */
  type Roster = map<int, Student>

  /** The roster after a command, and the text replied to the sender. */
  datatype Reply = Reply(roster: Roster, text: string)

  const NotRegisteredText := "You have not registered. Please send /register once and try again."
  const InsertFailedText := "Oh no! Something went wrong. Please try again."
  const AlreadyRegisteredText := "You are already registered. Send /unregister to unregister."
  const NotifyOnText := "You'll receive notification regarding job from now on. Send /unnotify to stop."
  const AlreadyNotifiedText := "You are already getting notifications. Send /unnotify to stop."
  const NotifyOffText := "You will not receive notifications. Send /notify to get notifications."
  const AlreadyNotNotifiedText := "You are already not receiving notifications. Send /notify to get notifications."
  const UnregisteredText := "You have been unregistered. Send /register to register again."
  const AlreadyUnregisteredText := "You are already unregistered. Send /register to register again."

  function RegisteredText(fullName: string): string
  {
    "Thanks " + fullName + "! You have been registered. To unregister send /unregister"
  }

  /** `student_is_registered(chat_id)` */
  predicate IsRegistered(roster: Roster, chat: int)
  {
    chat in roster && roster[chat].registered
  }

  /** `student_is_notified(chat_id)` */
  predicate IsNotified(roster: Roster, chat: int)
  {
    chat in roster && roster[chat].notify
  }

  /** Two rosters agree on every student except the one of `chat`. */
  predicate OthersUnchanged(before: Roster, after: Roster, chat: int)
  {
    && before.Keys - {chat} == after.Keys - {chat}
    && forall c :: c in before && c != chat ==> c in after && after[c] == before[c]
  }

  /** `handler_register`: a student not yet registered is created when
      absent (`insert_student`, whose result is `inserted`: the new row's
      id, or `None` when the insert failed) and then marked registered. */
  function Register(roster: Roster, chat: int, username: string, fullName: string, inserted: Option<nat>): (r: Reply)
    ensures OthersUnchanged(roster, r.roster, chat)
    ensures IsRegistered(roster, chat) ==> r == Reply(roster, AlreadyRegisteredText)
    ensures chat !in roster && inserted.None? ==> r == Reply(roster, InsertFailedText)
    ensures r.roster != roster ==> IsRegistered(r.roster, chat) && r.text == RegisteredText(fullName)
    ensures !IsRegistered(roster, chat) && (chat in roster || inserted.Some?) ==>
      && IsRegistered(r.roster, chat)
      && r.text == RegisteredText(fullName)
      && r.roster.Keys == roster.Keys + {chat}
      && (chat in roster ==> r.roster[chat] == roster[chat].(registered := true))
      && (chat !in roster ==> r.roster[chat] == Student(inserted.value, chat, username, fullName, true, false))
  {
    if IsRegistered(roster, chat) then Reply(roster, AlreadyRegisteredText)
    else if chat !in roster && inserted.None? then Reply(roster, InsertFailedText)
    else
      var existing := if chat in roster then roster
        else roster[chat := Student(inserted.value, chat, username, fullName, false, false)];
      Reply(existing[chat := existing[chat].(registered := true)], RegisteredText(fullName))
  }

  /** The `is_registered` decorator: a command of an unregistered sender
      is refused with a reply and changes nothing. */
  function Gated(roster: Roster, chat: int, command: Roster -> Reply): (r: Reply)
    ensures !IsRegistered(roster, chat) ==> r == Reply(roster, NotRegisteredText)
    ensures IsRegistered(roster, chat) ==> r == command(roster)
  {
    if IsRegistered(roster, chat) then command(roster) else Reply(roster, NotRegisteredText)
  }

  /** The body of `handler_notify`, behind the gate. */
  function SetNotify(roster: Roster, chat: int): (r: Reply)
    requires chat in roster
    ensures OthersUnchanged(roster, r.roster, chat) && chat in r.roster
    ensures r.roster[chat] == roster[chat].(notify := true)
    ensures r.text == (if roster[chat].notify then AlreadyNotifiedText else NotifyOnText)
  {
    if !roster[chat].notify then Reply(roster[chat := roster[chat].(notify := true)], NotifyOnText)
    else Reply(roster, AlreadyNotifiedText)
  }

  /** The body of `handler_unnotify`, behind the gate. */
  function ClearNotify(roster: Roster, chat: int): (r: Reply)
    requires chat in roster
    ensures OthersUnchanged(roster, r.roster, chat) && chat in r.roster
    ensures r.roster[chat] == roster[chat].(notify := false)
    ensures r.text == (if roster[chat].notify then NotifyOffText else AlreadyNotNotifiedText)
  {
    if roster[chat].notify then Reply(roster[chat := roster[chat].(notify := false)], NotifyOffText)
    else Reply(roster, AlreadyNotNotifiedText)
  }

  /** `/notify`: only the sender's notify flag changes, and only for a
      registered sender. */
  function Notify(roster: Roster, chat: int): (r: Reply)
    ensures OthersUnchanged(roster, r.roster, chat)
    ensures !IsRegistered(roster, chat) ==> r == Reply(roster, NotRegisteredText)
    ensures IsRegistered(roster, chat) ==>
      chat in r.roster && r.roster[chat] == roster[chat].(notify := true) && IsNotified(r.roster, chat)
  {
    Gated(roster, chat, (m: Roster) => if chat in m then SetNotify(m, chat) else Reply(m, NotRegisteredText))
  }

  /** `/unnotify`: only the sender's notify flag changes, and only for a
      registered sender. */
  function Unnotify(roster: Roster, chat: int): (r: Reply)
    ensures OthersUnchanged(roster, r.roster, chat)
    ensures !IsRegistered(roster, chat) ==> r == Reply(roster, NotRegisteredText)
    ensures IsRegistered(roster, chat) ==>
      chat in r.roster && r.roster[chat] == roster[chat].(notify := false) && !IsNotified(r.roster, chat)
  {
    Gated(roster, chat, (m: Roster) => if chat in m then ClearNotify(m, chat) else Reply(m, NotRegisteredText))
  }

  /** `/unregister`: not gated; clears the registered flag and never
      deletes the student. */
  function Unregister(roster: Roster, chat: int): (r: Reply)
    ensures r.roster.Keys == roster.Keys
    ensures OthersUnchanged(roster, r.roster, chat)
    ensures !IsRegistered(r.roster, chat)
    ensures chat in roster ==> r.roster[chat] == roster[chat].(registered := false)
    ensures r.text == (if IsRegistered(roster, chat) then UnregisteredText else AlreadyUnregisteredText)
  {
    if IsRegistered(roster, chat) then Reply(roster[chat := roster[chat].(registered := false)], UnregisteredText)
    else Reply(roster, AlreadyUnregisteredText)
  }

  /** Registering again is refused and changes nothing. */
  lemma RegisterTwice(roster: Roster, chat: int, username: string, fullName: string, inserted: Option<nat>, again: Option<nat>)
    requires chat in roster || inserted.Some?
    ensures
      var once := Register(roster, chat, username, fullName, inserted).roster;
      Register(once, chat, username, fullName, again) == Reply(once, AlreadyRegisteredText)
  {
  }

  /** Unregistering and registering again restores the student exactly,
      without a second insert. */
  lemma UnregisterRegister(roster: Roster, chat: int, username: string, fullName: string, inserted: Option<nat>)
    requires IsRegistered(roster, chat)
    ensures Register(Unregister(roster, chat).roster, chat, username, fullName, inserted).roster == roster
  {
    var off := Unregister(roster, chat).roster;
    var on := Register(off, chat, username, fullName, inserted).roster;
    assert on.Keys == roster.Keys;
    assert on[chat] == roster[chat];
  }

  /** Turning notifications off and on again restores the roster when they
      were on. */
  lemma UnnotifyNotify(roster: Roster, chat: int)
    requires IsRegistered(roster, chat) && IsNotified(roster, chat)
    ensures Notify(Unnotify(roster, chat).roster, chat).roster == roster
  {
    var off := Unnotify(roster, chat).roster;
    var on := Notify(off, chat).roster;
    assert on.Keys == roster.Keys;
    assert on[chat] == roster[chat];
  }

  /** No command ever removes a student. */
  lemma NoCommandDeletes(roster: Roster, chat: int, other: int, username: string, fullName: string, inserted: Option<nat>)
    requires other in roster
    ensures other in Register(roster, chat, username, fullName, inserted).roster
    ensures other in Notify(roster, chat).roster
    ensures other in Unnotify(roster, chat).roster
    ensures other in Unregister(roster, chat).roster
  {
    if other != chat {
      assert other in roster.Keys - {chat};
    }
  }
}
