/** The Telegram bot's handlers (`backend/app/services/telegram_bot.py`): one update
    from one sender, against the todos table, gives at most one reply and the table
    after it.

    The allow-list setting is parsed again on every update; when parsing it raises,
    the handler raises before replying, which the model renders as no reply and no
    change.
 */
module TelegramBot {
  import opened Base
  import Text
  import Config
  import FreeText
  import TodoStore

  /** The sender of an update: Telegram id, optional username, first name. */
  datatype User = User(id: int, username: Option<string>, firstName: string)

  /** The registered slash commands. */
  datatype Command = Start | Help | Add | List | All | Done | Delete

  /** A command with the whitespace-separated words after it, or plain text that is
      not a command. */
  datatype Message = CommandMessage(command: Command, args: seq<string>) | TextMessage(text: string)

  /** The replies the handlers send, before rendering. */
  datatype Reply =
    | RefusalWithId(userId: int)
    | Refusal
    | Welcome(firstName: string)
    | AddUsage
    | Added(id: int, title: string)
    | NoPending
    | Pending(rows: seq<TodoStore.Row>)
    | NoTodos
    | Everything(rows: seq<TodoStore.Row>)
    | DoneUsage
    | DeleteUsage
    | InvalidId
    | Completed(title: string)
    | Missing(id: int)
    | Deleted(id: int)

  datatype Outcome = Outcome(reply: Option<Reply>, store: TodoStore.Store)

  // ---------------------------------------------------------------------------
  // Reply texts

  const WelcomeBody: string :=
    "! I'm your household todo bot.\n\n"
    + "Commands:\n"
    + "/add <task> - Add a new todo\n"
    + "/list - Show all pending todos\n"
    + "/all - Show all todos (including completed)\n"
    + "/done <id> - Mark a todo as complete\n"
    + "/delete <id> - Delete a todo\n"
    + "/help - Show this message\n\n"
    + "You can also type naturally:\n"
    + "'add todo: buy groceries'\n"
    + "'todo buy milk'"

  const RefusalHead: string := "Sorry, you're not authorized to use this bot.\n" + "Your Telegram ID is: "
  const RefusalTail: string := "\n" + "Add this ID to AUTHORIZED_USERS in your .env file."

  /** One line of the `/list` reply. */
  function PendingLine(row: TodoStore.Row): string {
    "#" + Text.IntToString(row.id) + " - " + row.todo.title + "\n"
  }

  /** One line of the `/all` reply. */
  function StatusLine(row: TodoStore.Row): string {
    "#" + Text.IntToString(row.id) + " [" + (if row.todo.completed then "Completed" else "Pending")
    + "] - " + row.todo.title + "\n"
  }

  /** The lines of a listing, in the order of the rows. */
  function Lines(rows: seq<TodoStore.Row>, all: bool): string {
    if |rows| == 0 then ""
    else Line(rows[0], all) + Lines(rows[1..], all)
  }

  /** The text sent for a reply. */
  function Render(reply: Reply): string {
    match reply
    case RefusalWithId(id) => RefusalHead + Text.IntToString(id) + RefusalTail
    case Refusal => "You're not authorized to use this bot."
    case Welcome(name) => "Hello " + name + WelcomeBody
    case AddUsage => "Please provide a task. Example: /add Buy groceries"
    case Added(id, title) => "Added todo #" + Text.IntToString(id) + ": " + title
    case NoPending => "No pending todos!"
    case Pending(rows) => "Pending todos:\n\n" + Lines(rows, false)
    case NoTodos => "No todos found!"
    case Everything(rows) => "All todos:\n\n" + Lines(rows, true)
    case DoneUsage => "Please provide a todo ID. Example: /done 1"
    case DeleteUsage => "Please provide a todo ID. Example: /delete 1"
    case InvalidId => "Invalid ID. Please provide a number."
    case Completed(title) => "Completed: " + title
    case Missing(id) => "Todo #" + Text.IntToString(id) + " not found."
    case Deleted(id) => "Deleted todo #" + Text.IntToString(id)
  }

  // ---------------------------------------------------------------------------
  // Handlers

  /** `user.username or str(user.id)`: the username unless it is absent or empty. */
  function CreatorTag(user: User): (r: string)
    ensures r != ""
    ensures user.username.Some? && user.username.value != "" ==> r == user.username.value
    ensures (user.username.None? || user.username.value == "") ==> r == Text.IntToString(user.id)
  {
    if user.username.Some? && user.username.value != "" then user.username.value
    else Text.IntToString(user.id)
  }

  /** `_create_todo` followed by the "Added" reply. */
  function AddTitle(st: TodoStore.Store, title: string, user: User, now: int): (r: Outcome)
    requires TodoStore.Valid(st)
    ensures TodoStore.Valid(r.store)
    ensures r.reply.Some? && r.reply.value.Added?
    ensures var id := r.reply.value.id;
            && id !in st.todos
            && r.reply.value.title == title
            && r.store.todos == st.todos[id := TodoStore.Todo(title, false, CreatorTag(user), now)]
  {
    var c := TodoStore.Create(st, title, CreatorTag(user), now);
    Outcome(Some(Added(c.id, title)), c.store)
  }

  /** The id argument of `/done` and `/delete`: `int(context.args[0])`, the rest ignored. */
  datatype IdArg = NoArg | NotANumber | Id(value: int)

  function IdArgument(args: seq<string>): (r: IdArg)
    ensures r.NoArg? <==> |args| == 0
    ensures |args| > 0 ==> (r.Id? <==> Text.ParseInt(args[0]).Some?)
    ensures r.Id? ==> Text.ParseInt(args[0]) == Some(r.value)
  {
    if |args| == 0 then NoArg
    else match Text.ParseInt(args[0])
      case None => NotANumber
      case Some(v) => Id(v)
  }

  /** The first argument of `/done` or `/delete` is an integer the database cannot
      hold: the lookup raises, and the handler sends nothing. */
  predicate IdOverflows(args: seq<string>) {
    IdArgument(args).Id? && !TodoStore.Bindable(IdArgument(args).value)
  }

  /** `/add` from an authorized sender: the words joined by single spaces become the title. */
  function AddCommand(args: seq<string>, user: User, st: TodoStore.Store, now: int): (r: Outcome)
    requires TodoStore.Valid(st)
    ensures TodoStore.Valid(r.store) && r.reply.Some?
    ensures |args| == 0 ==> r == Outcome(Some(AddUsage), st)
    ensures |args| > 0 ==>
      && r.reply.value.Added? && r.reply.value.title == Text.Join(args, " ")
      && r.reply.value.id !in st.todos
      && r.store.todos == st.todos[r.reply.value.id := TodoStore.Todo(Text.Join(args, " "), false, CreatorTag(user), now)]
  {
    if |args| == 0 then Outcome(Some(AddUsage), st) else AddTitle(st, Text.Join(args, " "), user, now)
  }

  /** `/list` (`all` false) and `/all` (`all` true): the listing, or the empty-listing text. */
  function ListCommand(st: TodoStore.Store, all: bool): (r: Outcome)
    requires TodoStore.Valid(st)
    ensures r.store == st
    ensures var filter := if all then None else Some(false);
            if forall id :: id in st.todos ==> !TodoStore.Selected(st.todos[id], filter)
            then r.reply == Some(if all then NoTodos else NoPending)
            else r.reply == Some(if all then Everything(TodoStore.List(st, filter)) else Pending(TodoStore.List(st, filter)))
  {
    TodoStore.EmptyListing(st, if all then None else Some(false));
    var rows := TodoStore.List(st, if all then None else Some(false));
    Outcome(Some(if |rows| == 0 then (if all then NoTodos else NoPending)
                 else if all then Everything(rows) else Pending(rows)), st)
  }

  /** `/done <id>`: mark that todo completed, leaving every other row as it was. */
  function DoneCommand(args: seq<string>, st: TodoStore.Store): (r: Outcome)
    requires TodoStore.Valid(st)
    ensures TodoStore.Valid(r.store)
    ensures r.reply.None? <==> IdOverflows(args)
    ensures match IdArgument(args)
            case NoArg => r == Outcome(Some(DoneUsage), st)
            case NotANumber => r == Outcome(Some(InvalidId), st)
            case Id(id) =>
              if !TodoStore.Bindable(id) then r == Outcome(None, st)
              else if id in st.todos then
                && r.reply == Some(Completed(st.todos[id].title))
                && r.store.todos == st.todos[id := st.todos[id].(completed := true)]
              else r == Outcome(Some(Missing(id)), st)
  {
    match IdArgument(args)
    case NoArg => Outcome(Some(DoneUsage), st)
    case NotANumber => Outcome(Some(InvalidId), st)
    case Id(id) =>
      if !TodoStore.Bindable(id) then Outcome(None, st) else
      var c := TodoStore.Update(st, id, TodoStore.MarkDone);
      if c.todo.Some? then
        MarkDoneRow(st, id);
        Outcome(Some(Completed(c.todo.value.title)), c.store)
      else Outcome(Some(Missing(id)), st)
  }

  /** `/delete <id>`: remove that todo and no other. */
  function DeleteCommand(args: seq<string>, st: TodoStore.Store): (r: Outcome)
    requires TodoStore.Valid(st)
    ensures TodoStore.Valid(r.store)
    ensures r.reply.None? <==> IdOverflows(args)
    ensures match IdArgument(args)
            case NoArg => r == Outcome(Some(DeleteUsage), st)
            case NotANumber => r == Outcome(Some(InvalidId), st)
            case Id(id) =>
              if !TodoStore.Bindable(id) then r == Outcome(None, st)
              else if id in st.todos then r.reply == Some(Deleted(id)) && r.store.todos == st.todos - {id}
              else r == Outcome(Some(Missing(id)), st)
  {
    match IdArgument(args)
    case NoArg => Outcome(Some(DeleteUsage), st)
    case NotANumber => Outcome(Some(InvalidId), st)
    case Id(id) =>
      if !TodoStore.Bindable(id) then Outcome(None, st) else
      var d := TodoStore.Delete(st, id);
      Outcome(Some(if d.found then Deleted(id) else Missing(id)), d.store)
  }

  /** A command from an authorized sender. */
  function HandleCommand(cmd: Command, args: seq<string>, user: User, st: TodoStore.Store, now: int): (r: Outcome)
    requires TodoStore.Valid(st)
    ensures TodoStore.Valid(r.store)
    ensures r.reply.None? <==> (cmd == Done || cmd == Delete) && IdOverflows(args)
    ensures r.reply.None? ==> r.store == st
  {
    match cmd
    case Start => Outcome(Some(Welcome(user.firstName)), st)
    case Help => Outcome(Some(Welcome(user.firstName)), st)
    case Add => AddCommand(args, user, st, now)
    case List => ListCommand(st, false)
    case All => ListCommand(st, true)
    case Done => DoneCommand(args, st)
    case Delete => DeleteCommand(args, st)
  }

  /** `handle_message` for an authorized sender: a todo when the text yields a title,
      silence otherwise. */
  function HandleText(text: string, user: User, st: TodoStore.Store, now: int): (r: Outcome)
    requires TodoStore.Valid(st)
    ensures TodoStore.Valid(r.store)
    ensures r.reply.None? <==> FreeText.Title(text).None?
    ensures r.reply.None? ==> r.store == st
  {
    match FreeText.Title(text)
    case None => Outcome(None, st)
    case Some(title) => AddTitle(st, title, user, now)
  }

  /** One update. `allowList` is the `authorized_users` setting. */
  function Handle(allowList: string, user: User, msg: Message, st: TodoStore.Store, now: int): (r: Outcome)
    requires TodoStore.Valid(st)
    ensures TodoStore.Valid(r.store)
    ensures Config.IsAuthorized(allowList, user.id) != Some(true) ==> r.store == st
    ensures Config.IsAuthorized(allowList, user.id).None? ==> r.reply.None?
    ensures msg.CommandMessage? && Config.IsAuthorized(allowList, user.id) == Some(false) ==> r.reply.Some?
    ensures msg.CommandMessage? && Config.IsAuthorized(allowList, user.id) == Some(true) ==>
              (r.reply.None? <==> (msg.command == Done || msg.command == Delete) && IdOverflows(msg.args))
    ensures r.reply.None? ==> r.store == st
  {
    match Config.IsAuthorized(allowList, user.id)
    case None => Outcome(None, st)
    case Some(false) =>
      (match msg
       case TextMessage(_) => Outcome(None, st)
       case CommandMessage(cmd, _) =>
         Outcome(Some(if cmd == Start || cmd == Help then RefusalWithId(user.id) else Refusal), st))
    case Some(true) =>
      match msg
      case TextMessage(text) => HandleText(text, user, st, now)
      case CommandMessage(cmd, args) => HandleCommand(cmd, args, user, st, now)
  }

  // ---------------------------------------------------------------------------
  // Properties

  /** An authorized sender's command goes to the handler of that command. */
  lemma {:induction false} AuthorizedCommand(allowList: string, user: User, cmd: Command, args: seq<string>, st: TodoStore.Store, now: int)
    requires TodoStore.Valid(st)
    requires Config.IsAuthorized(allowList, user.id) == Some(true)
    ensures Handle(allowList, user, CommandMessage(cmd, args), st, now)
         == match cmd
            case Start => Outcome(Some(Welcome(user.firstName)), st)
            case Help => Outcome(Some(Welcome(user.firstName)), st)
            case Add => AddCommand(args, user, st, now)
            case List => ListCommand(st, false)
            case All => ListCommand(st, true)
            case Done => DoneCommand(args, st)
            case Delete => DeleteCommand(args, st)
  {
  }

  /** A sender outside the allow-list gets a refusal to every command and nothing
      changes; `/start` and `/help` tell them their id. */
  lemma {:induction false} RefusedCommand(allowList: string, user: User, cmd: Command, args: seq<string>, st: TodoStore.Store, now: int)
    requires TodoStore.Valid(st)
    requires Config.IsAuthorized(allowList, user.id) == Some(false)
    ensures var r := Handle(allowList, user, CommandMessage(cmd, args), st, now);
            && r.store == st
            && r.reply == Some(if cmd in {Start, Help} then RefusalWithId(user.id) else Refusal)
  {
    assert Handle(allowList, user, CommandMessage(cmd, args), st, now)
        == Outcome(Some(if cmd == Start || cmd == Help then RefusalWithId(user.id) else Refusal), st);
  }

  /** The refusal to `/start` and `/help` spells out the sender's id, readable back as that id. */
  lemma {:induction false} RefusalShowsId(id: int)
    ensures Text.IsInfix(Text.IntToString(id), Render(RefusalWithId(id)))
  {
    var n := Text.IntToString(id);
    var t := Render(RefusalWithId(id));
    assert t == RefusalHead + n + RefusalTail;
    assert t[|RefusalHead|..] == n + RefusalTail;
    assert n <= t[|RefusalHead|..];
  }

  /** Every reply about one todo names it: the id for "Added", "not found" and "Deleted",
      the title for "Added" and "Completed", and the sender's id in the refusal. */
  lemma {:induction false} RenderNamesItsSubject(reply: Reply)
    ensures reply.Added? ==> Text.IsInfix(Text.IntToString(reply.id), Render(reply))
    ensures reply.Added? || reply.Completed? ==> Text.IsInfix(reply.title, Render(reply))
    ensures reply.Missing? || reply.Deleted? ==> Text.IsInfix(Text.IntToString(reply.id), Render(reply))
    ensures reply.RefusalWithId? ==> Text.IsInfix(Text.IntToString(reply.userId), Render(reply))
  {
    match reply
    case Added(id, title) => AddedNames(id, title);
    case Completed(title) => InfixAtEnd(title, "Completed: ");
    case Missing(id) => MissingNames(id);
    case Deleted(id) => InfixAtEnd(Text.IntToString(id), "Deleted todo #");
    case RefusalWithId(id) => RefusalShowsId(id);
    case _ =>
  }

  lemma {:induction false} AddedNames(id: int, title: string)
    ensures Text.IsInfix(Text.IntToString(id), Render(Added(id, title)))
    ensures Text.IsInfix(title, Render(Added(id, title)))
  {
    var pre := "Added todo #";
    var n := Text.IntToString(id);
    var t := Render(Added(id, title));
    assert t == pre + n + ": " + title;
    assert t[|pre|..] == n + ": " + title;
    assert n <= t[|pre|..];
    assert title <= t[|t| - |title|..];
  }

  lemma {:induction false} MissingNames(id: int)
    ensures Text.IsInfix(Text.IntToString(id), Render(Missing(id)))
  {
    var n := Text.IntToString(id);
    var t := Render(Missing(id));
    assert t == "Todo #" + n + " not found.";
    assert t[|"Todo #"|..] == n + " not found.";
    assert n <= t[|"Todo #"|..];
  }

  /** Text from a sender outside the allow-list is ignored. */
  lemma {:induction false} RefusedTextIsSilent(allowList: string, user: User, text: string, st: TodoStore.Store, now: int)
    requires TodoStore.Valid(st)
    requires Config.IsAuthorized(allowList, user.id) == Some(false)
    ensures Handle(allowList, user, TextMessage(text), st, now) == Outcome(None, st)
  {
  }

  /** With an empty allow-list nobody can change the table. */
  lemma {:induction false} EmptyAllowListChangesNothing(user: User, msg: Message, st: TodoStore.Store, now: int)
    requires TodoStore.Valid(st)
    ensures Handle("", user, msg, st, now).store == st
  {
    Config.EmptyAllowListAuthorizesNobody(user.id);
  }

  /** An allow-list that does not parse silences the bot for everyone. */
  lemma {:induction false} BrokenAllowListIsSilent(allowList: string, user: User, msg: Message, st: TodoStore.Store, now: int)
    requires TodoStore.Valid(st)
    requires Config.AuthorizedUserIds(allowList).None?
    ensures Handle(allowList, user, msg, st, now) == Outcome(None, st)
  {
  }

  /** `/help` answers exactly as `/start`. */
  lemma {:induction false} HelpIsStart(allowList: string, user: User, args: seq<string>, st: TodoStore.Store, now: int)
    requires TodoStore.Valid(st)
    ensures Handle(allowList, user, CommandMessage(Help, args), st, now)
         == Handle(allowList, user, CommandMessage(Start, args), st, now)
  {
  }

  /** `/add` with words stores their single-space join as a new pending todo by the
      sender; without words it only answers with the usage. */
  lemma {:induction false} AddJoinsWords(allowList: string, user: User, args: seq<string>, st: TodoStore.Store, now: int)
    requires TodoStore.Valid(st)
    requires Config.IsAuthorized(allowList, user.id) == Some(true)
    ensures var r := Handle(allowList, user, CommandMessage(Add, args), st, now);
            if |args| == 0 then r == Outcome(Some(AddUsage), st)
            else
              && r.reply.Some? && r.reply.value.Added?
              && r.reply.value.id !in st.todos
              && r.store.todos == st.todos[r.reply.value.id := TodoStore.Todo(Text.Join(args, " "), false, CreatorTag(user), now)]
  {
    AuthorizedCommand(allowList, user, Add, args, st, now);
  }

  /** Free text that yields a title adds exactly one todo with that title, which is
      non-empty, stripped and lower-case; text that yields none changes nothing. */
  lemma {:induction false} FreeTextAdds(allowList: string, user: User, text: string, st: TodoStore.Store, now: int)
    requires TodoStore.Valid(st)
    requires Config.IsAuthorized(allowList, user.id) == Some(true)
    ensures var r := Handle(allowList, user, TextMessage(text), st, now);
            match FreeText.Title(text)
            case None => r == Outcome(None, st)
            case Some(title) =>
              && title != "" && Text.IsStripped(title)
              && (forall i :: 0 <= i < |title| ==> !Text.IsUpper(title[i]))
              && r.reply.Some? && r.reply.value.Added? && r.reply.value.title == title
              && r.reply.value.id !in st.todos
              && r.store.todos == st.todos[r.reply.value.id := TodoStore.Todo(title, false, CreatorTag(user), now)]
  {
    assert Handle(allowList, user, TextMessage(text), st, now) == HandleText(text, user, st, now);
  }

  /** `/done` and `/delete` without an argument, or with a first argument that is not
      an integer, answer and change nothing; words after the first are ignored. */
  lemma {:induction false} BadIdChangesNothing(allowList: string, user: User, cmd: Command, args: seq<string>, st: TodoStore.Store, now: int)
    requires TodoStore.Valid(st)
    requires cmd == Done || cmd == Delete
    requires Config.IsAuthorized(allowList, user.id) == Some(true)
    requires |args| == 0 || Text.ParseInt(args[0]).None?
    ensures var r := Handle(allowList, user, CommandMessage(cmd, args), st, now);
            && r.store == st
            && r.reply == Some(if |args| == 0 then (if cmd == Done then DoneUsage else DeleteUsage) else InvalidId)
  {
    AuthorizedCommand(allowList, user, cmd, args, st, now);
  }

  lemma {:induction false} ExtraWordsIgnored(allowList: string, user: User, cmd: Command, first: string, rest: seq<string>, st: TodoStore.Store, now: int)
    requires TodoStore.Valid(st)
    requires cmd == Done || cmd == Delete
    ensures Handle(allowList, user, CommandMessage(cmd, [first] + rest), st, now)
         == Handle(allowList, user, CommandMessage(cmd, [first]), st, now)
  {
    assert IdArgument([first] + rest) == IdArgument([first]);
    if Config.IsAuthorized(allowList, user.id) == Some(true) {
      AuthorizedCommand(allowList, user, cmd, [first] + rest, st, now);
      AuthorizedCommand(allowList, user, cmd, [first], st, now);
    }
  }

  /** `/done <id>` on an existing todo sets only its completed flag; on a missing one it
      answers "not found" and changes nothing. Sending it twice is the same as once. An id
      the database cannot hold gets no reply and changes nothing. */
  lemma {:induction false} DoneMarksOnlyThatTodo(allowList: string, user: User, args: seq<string>, id: int, st: TodoStore.Store, now: int)
    requires TodoStore.Valid(st)
    requires Config.IsAuthorized(allowList, user.id) == Some(true)
    requires |args| > 0 && Text.ParseInt(args[0]) == Some(id)
    ensures var r := Handle(allowList, user, CommandMessage(Done, args), st, now);
            if !TodoStore.Bindable(id) then r == Outcome(None, st)
            else if id in st.todos then
              && r.reply == Some(Completed(st.todos[id].title))
              && r.store.todos == st.todos[id := st.todos[id].(completed := true)]
              && Handle(allowList, user, CommandMessage(Done, args), r.store, now).store == r.store
            else r == Outcome(Some(Missing(id)), st)
  {
    AuthorizedCommand(allowList, user, Done, args, st, now);
    var r := DoneCommand(args, st);
    if TodoStore.Bindable(id) && id in st.todos {
      DoneTwice(args, id, st);
      AuthorizedCommand(allowList, user, Done, args, r.store, now);
    }
  }

  /** `_complete_todo` on an existing row sets its completed flag and nothing else. */
  lemma {:induction false} MarkDoneRow(st: TodoStore.Store, id: int)
    requires TodoStore.Valid(st) && id in st.todos
    ensures var c := TodoStore.Update(st, id, TodoStore.MarkDone);
            && c.todo == Some(st.todos[id].(completed := true))
            && c.store.todos == st.todos[id := st.todos[id].(completed := true)]
  {
    var c := TodoStore.Update(st, id, TodoStore.MarkDone);
    var m := st.todos[id := st.todos[id].(completed := true)];
    assert c.store.todos.Keys == m.Keys;
    assert forall k :: k in m ==> c.store.todos[k] == m[k];
  }

  /** Marking a todo done a second time changes nothing more. */
  lemma {:induction false} DoneTwice(args: seq<string>, id: int, st: TodoStore.Store)
    requires TodoStore.Valid(st)
    requires IdArgument(args) == Id(id) && TodoStore.Bindable(id) && id in st.todos
    ensures var r := DoneCommand(args, st);
            DoneCommand(args, r.store).store == r.store
  {
    TodoStore.UpdateIdempotent(st, id, TodoStore.MarkDone);
  }

  /** `/delete <id>` removes exactly that todo; on a missing one it answers "not found"
      and changes nothing, so a second `/delete` of the same id is "not found". An id the
      database cannot hold gets no reply and changes nothing. */
  lemma {:induction false} DeleteRemovesOnlyThatTodo(allowList: string, user: User, args: seq<string>, id: int, st: TodoStore.Store, now: int)
    requires TodoStore.Valid(st)
    requires Config.IsAuthorized(allowList, user.id) == Some(true)
    requires |args| > 0 && Text.ParseInt(args[0]) == Some(id)
    ensures var r := Handle(allowList, user, CommandMessage(Delete, args), st, now);
            && (!TodoStore.Bindable(id) ==> r == Outcome(None, st))
            && (TodoStore.Bindable(id) && id in st.todos ==> r.reply == Some(Deleted(id)) && r.store.todos == st.todos - {id})
            && (TodoStore.Bindable(id) && id !in st.todos ==> r == Outcome(Some(Missing(id)), st))
            && Handle(allowList, user, CommandMessage(Delete, args), r.store, now)
               == Outcome(if TodoStore.Bindable(id) then Some(Missing(id)) else None, r.store)
  {
    AuthorizedCommand(allowList, user, Delete, args, st, now);
    var r := DeleteCommand(args, st);
    AuthorizedCommand(allowList, user, Delete, args, r.store, now);
  }

  /** `/list` never changes the table; it answers with the pending todos, newest
      first, or with the empty-listing text exactly when every todo is completed. */
  lemma {:induction false} ListChangesNothing(allowList: string, user: User, args: seq<string>, st: TodoStore.Store, now: int)
    requires TodoStore.Valid(st)
    requires Config.IsAuthorized(allowList, user.id) == Some(true)
    ensures var r := Handle(allowList, user, CommandMessage(List, args), st, now);
            && r.store == st
            && (r.reply == Some(NoPending) <==> forall id :: id in st.todos ==> st.todos[id].completed)
            && (r.reply != Some(NoPending) ==> r.reply == Some(Pending(TodoStore.List(st, Some(false)))))
  {
    AuthorizedCommand(allowList, user, List, args, st, now);
    TodoStore.EmptyListing(st, Some(false));
  }

  /** `/all` never changes the table; it answers with every todo, newest first, or with
      the empty-listing text exactly when there are none. */
  lemma {:induction false} AllChangesNothing(allowList: string, user: User, args: seq<string>, st: TodoStore.Store, now: int)
    requires TodoStore.Valid(st)
    requires Config.IsAuthorized(allowList, user.id) == Some(true)
    ensures var r := Handle(allowList, user, CommandMessage(All, args), st, now);
            && r.store == st
            && (r.reply == Some(NoTodos) <==> forall id :: id !in st.todos)
            && (r.reply != Some(NoTodos) ==> r.reply == Some(Everything(TodoStore.List(st, None))))
  {
    AuthorizedCommand(allowList, user, All, args, st, now);
    TodoStore.EmptyListing(st, None);
  }

  function Line(row: TodoStore.Row, all: bool): string {
    if all then StatusLine(row) else PendingLine(row)
  }

  /** Every listed row appears in the rendered listing as its own line. */
  lemma {:induction false} ListingShowsEveryRow(rows: seq<TodoStore.Row>, all: bool, k: nat)
    requires k < |rows|
    ensures Text.IsInfix(Line(rows[k], all), Lines(rows, all))
    decreases |rows|
  {
    var rest := Lines(rows[1..], all);
    assert Lines(rows, all) == Line(rows[0], all) + rest;
    if k == 0 {
      InfixOfPrefix(Line(rows[0], all), rest);
    } else {
      ListingShowsEveryRow(rows[1..], all, k - 1);
      assert rows[1..][k - 1] == rows[k];
      InfixOfSuffix(Line(rows[k], all), Line(rows[0], all), rest);
    }
  }

  lemma {:induction false} InfixOfPrefix(x: string, rest: string)
    ensures Text.IsInfix(x, x + rest)
  {
    assert x <= (x + rest)[0..];
  }

  lemma {:induction false} InfixOfSuffix(x: string, a: string, b: string)
    requires Text.IsInfix(x, b)
    ensures Text.IsInfix(x, a + b)
  {
    var i :| 0 <= i <= |b| && x <= b[i..];
    assert (a + b)[|a| + i..] == b[i..];
  }

  lemma {:induction false} InfixAtEnd(x: string, a: string)
    ensures Text.IsInfix(x, a + x)
  {
    assert x <= (a + x)[|a|..];
  }
}
