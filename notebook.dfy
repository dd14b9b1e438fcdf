/** The messenger's local store (`a3-dmchat/notebook.py`): a user's
    credentials, diaries, contacts and per-contact message history, kept in
    memory. The JSON reading and writing of `save`/`load` is not modelled;
    their check of the file name's extension is. */
module NotebookStore {
  import opened Options
  import opened PyText

  /** A message as the messenger hands it to the store. The `sender` and
      `recipient` entries may be absent or None; both read as "". */
  datatype Message = Message(sender: Option<string>, recipient: Option<string>, entry: string, timestamp: real)

  /** A diary entry. It is also a dict: the items 'entry' and 'timestamp'
      are the view that is written to the notebook file. */
  class Diary {
    var entry: string
    var timestamp: real
    var itemEntry: string      // the dict item 'entry'
    var itemTimestamp: real    // the dict item 'timestamp'

    /** The dict view shows the same entry and timestamp as the fields. */
    ghost predicate InSync()
      reads this
    {
      itemEntry == entry && itemTimestamp == timestamp
    }

    /** `Diary(entry, timestamp)` at clock reading `now`: a zero timestamp
        means "not set" and is replaced by `now`. */
    constructor (entry: string, timestamp: real, now: real)
      ensures this.entry == entry
      ensures this.timestamp == if timestamp == 0.0 then now else timestamp
      ensures InSync()
    {
      this.timestamp := timestamp;
      this.entry := entry;
      this.itemEntry := entry;
      this.itemTimestamp := timestamp;
      new;
      SetEntrySynced(entry, now);
      itemEntry, itemTimestamp := this.entry, this.timestamp;
    }

    /** `set_entry` as written: the entry and its dict item are replaced, and a
        zero timestamp is replaced by `now`, but the dict item 'timestamp'
        keeps its old value. */
    method SetEntry(entry: string, now: real)
      modifies this
      ensures this.entry == entry && itemEntry == entry
      ensures timestamp == if old(timestamp) == 0.0 then now else old(timestamp)
      ensures itemTimestamp == old(itemTimestamp)
    {
      this.entry := entry;
      itemEntry := entry;
      if timestamp == 0.0 {
        timestamp := now;
      }
    }

    /** `set_entry` as intended: like `SetEntry`, and the dict item
        'timestamp' follows a regenerated timestamp, so the view stays in sync. */
    method SetEntrySynced(entry: string, now: real)
      modifies this
      ensures this.entry == entry && itemEntry == entry
      ensures timestamp == if old(timestamp) == 0.0 then now else old(timestamp)
      ensures old(InSync()) ==> InSync()
      ensures old(timestamp) == 0.0 ==> InSync()
      ensures old(timestamp) != 0.0 ==> itemTimestamp == old(itemTimestamp)
    {
      this.entry := entry;
      itemEntry := entry;
      if timestamp == 0.0 {
        timestamp := now;
        itemTimestamp := now;
      }
    }

    /** `set_time`: the timestamp and its dict item both become `time`. */
    method SetTime(time: real)
      modifies this
      ensures timestamp == time && itemTimestamp == time
      ensures entry == old(entry) && itemEntry == old(itemEntry)
      ensures old(InSync()) ==> InSync()
    {
      timestamp := time;
      itemTimestamp := time;
    }
  }

  /** A diary whose timestamp was set to zero and whose entry was then
      replaced: `SetEntry` regenerates the timestamp, the dict view still
      shows zero. */
  method StaleTimestampAfterSetEntry() returns (d: Diary)
    ensures d.timestamp == 7.0 && d.itemTimestamp == 0.0
    ensures !d.InSync()
  {
    d := new Diary("first", 5.0, 1.0);
    d.SetTime(0.0);
    d.SetEntry("second", 7.0);
  }

  /** The same steps with the intended `set_entry` keep the view in sync. */
  method SyncedAfterSetEntry() returns (d: Diary)
    ensures d.timestamp == 7.0 && d.itemTimestamp == 7.0
    ensures d.InSync()
  {
    d := new Diary("first", 5.0, 1.0);
    d.SetTime(0.0);
    d.SetEntrySynced("second", 7.0);
  }

  /** The contact list holds distinct, normalised, non-empty names. */
  ghost predicate ContactsWellFormed(cs: seq<string>) {
    && (forall i, j :: 0 <= i < j < |cs| ==> cs[i] != cs[j])
    && (forall i :: 0 <= i < |cs| ==> cs[i] != "" && IsNormalized(cs[i]))
  }

  /** The contact list after `add_contact(raw)`. */
  function InsertContact(cs: seq<string>, raw: string): (r: seq<string>)
    ensures |cs| <= |r| <= |cs| + 1 && r[..|cs|] == cs
  {
    var c := Normalize(raw);
    if c != "" && c !in cs then cs + [c] else cs
  }

  /** A name is a contact after `add_contact(raw)` iff it was one before or
      it is the non-empty normal form of `raw`. */
  lemma InsertContactMembers(cs: seq<string>, raw: string, x: string)
    ensures x in InsertContact(cs, raw) <==> x in cs || (x == Normalize(raw) && x != "")
  {
  }

  /** Adding a contact keeps the list free of duplicates, empty and unnormalised names. */
  lemma InsertContactWellFormed(cs: seq<string>, raw: string)
    requires ContactsWellFormed(cs)
    ensures ContactsWellFormed(InsertContact(cs, raw))
  {
  }

  /** A non-empty name already in normal form is stored as it is. */
  lemma InsertNormalized(cs: seq<string>, c: string)
    requires IsNormalized(c) && c != ""
    ensures c in InsertContact(cs, c)
  {
    NormalizedFixpoint(c);
  }

  /** The other party of a message, normalised: the recipient when the
      normalised sender is the user, otherwise the sender. */
  function OtherParty(username: string, msg: Message): (c: string)
    ensures IsNormalized(c)
    ensures var s := Normalize(msg.sender.GetOr(""));
      c == if s == username then Normalize(msg.recipient.GetOr("")) else s
  {
    var s := Normalize(msg.sender.GetOr(""));
    var r := Normalize(msg.recipient.GetOr(""));
    if s == username then r else s
  }

  /** The message map after appending `msg` to `contact`'s history. */
  function AppendMessage(m: map<string, seq<Message>>, contact: string, msg: Message): (r: map<string, seq<Message>>)
    ensures r.Keys == m.Keys + {contact}
    ensures r[contact] == (if contact in m then m[contact] else []) + [msg]
    ensures forall k :: k in m && k != contact ==> r[k] == m[k]
  {
    m[contact := (if contact in m then m[contact] else []) + [msg]]
  }

  /** `del xs[index]` on a list: whether Python accepts the index, and the list afterwards. */
  function DeleteAt<T>(s: seq<T>, index: int): (r: (bool, seq<T>))
    ensures r.0 <==> -|s| <= index < |s|
    ensures !r.0 ==> r.1 == s
    ensures r.0 ==> var k := if index < 0 then index + |s| else index;
      && |r.1| == |s| - 1
      && (forall j :: 0 <= j < |r.1| ==> r.1[j] == if j < k then s[j] else s[j + 1])
      && multiset(r.1) + multiset{s[k]} == multiset(s)
  {
    match PyIndex(index, |s|)
    case None => (false, s)
    case Some(k) =>
      assert s == s[..k] + [s[k]] + s[k + 1..];
      (true, s[..k] + s[k + 1..])
  }

  class Notebook {
    var username: string
    var password: string
    var bio: string
    var diaries: seq<Diary>
    var contacts: seq<string>
    var messages: map<string, seq<Message>>

    /** What the operations keep: well-formed contacts, and a message history
        only for a stored contact. */
    ghost predicate Valid()
      reads this
    {
      ContactsWellFormed(contacts) && forall c :: c in messages ==> c in contacts
    }

    constructor (username: string, password: string, bio: string)
      ensures this.username == username && this.password == password && this.bio == bio
      ensures diaries == [] && contacts == [] && messages == map[]
      ensures Valid()
    {
      this.username := username;
      this.password := password;
      this.bio := bio;
      diaries := [];
      contacts := [];
      messages := map[];
    }

    /** `add_diary`: the diary goes at the end, so the list is in insertion order. */
    method AddDiary(diary: Diary)
      modifies this`diaries
      ensures diaries == old(diaries) + [diary]
    {
      diaries := diaries + [diary];
    }

    /** `del_diary`: removes the diary at a Python index (negative counts from
        the end) and reports whether the index was valid. */
    method DelDiary(index: int) returns (ok: bool)
      modifies this`diaries
      ensures (ok, diaries) == DeleteAt(old(diaries), index)
    {
      var r := DeleteAt(diaries, index);
      ok, diaries := r.0, r.1;
    }

    /** `add_contact`: stores the normalised name once, at the end, unless it is empty. */
    method AddContact(contact: string)
      modifies this`contacts
      ensures contacts == InsertContact(old(contacts), contact)
      ensures old(Valid()) ==> Valid()
    {
      if Valid() {
        InsertContactWellFormed(contacts, contact);
      }
      var c := Normalize(contact);
      if c != "" && c !in contacts {
        contacts := contacts + [c];
      }
    }

    /** `get_contacts` */
    function GetContacts(): (r: seq<string>)
      reads this
      ensures r == contacts
      ensures Valid() ==> ContactsWellFormed(r)
    {
      contacts
    }

    /** `add_message`: files the message under the other party, who becomes a
        contact; a message whose other party normalises to "" is dropped. */
    method AddMessage(msg: Message)
      modifies this`contacts, this`messages
      ensures var c := OtherParty(username, msg);
        && contacts == (if c == "" then old(contacts) else InsertContact(old(contacts), c))
        && messages == (if c == "" then old(messages) else AppendMessage(old(messages), c, msg))
      ensures var c := OtherParty(username, msg);
        c != "" ==> GetMessages(c) == old(GetMessages(c)) + [msg]
      ensures old(Valid()) ==> Valid()
    {
      var contact := OtherParty(username, msg);
      if contact != "" {
        AddContact(contact);
        InsertNormalized(old(contacts), contact);
        var history := if contact in messages then messages[contact] else [];
        messages := messages[contact := history + [msg]];
      }
    }

    /** `get_messages`: the history filed under exactly this name, or none. */
    function GetMessages(contact: string): (r: seq<Message>)
      reads this
      ensures contact in messages ==> r == messages[contact]
      ensures contact !in messages ==> r == []
      ensures Valid() && r != [] ==> contact in contacts
    {
      if contact in messages then messages[contact] else []
    }
  }

  lemma CapitalisedAlice()
    ensures Normalize("Alice") == "alice"
  {
    StripTrimmed("Alice");
    assert forall i :: 0 <= i < 5 ==> Lower("Alice")[i] == "alice"[i];
  }

  lemma ShoutedAlice()
    ensures Normalize("ALICE") == "alice"
  {
    StripTrimmed("ALICE");
    assert forall i :: 0 <= i < 5 ==> Lower("ALICE")[i] == "alice"[i];
  }

  lemma NormalNames()
    ensures Normalize("alice") == "alice" && Normalize("bob") == "bob" && Normalize("user") == "user"
  {
    NormalizedFixpoint("alice");
    NormalizedFixpoint("bob");
    NormalizedFixpoint("user");
  }

  /** The contact list through `add_contact` of "Alice", "ALICE" and "bob". */
  lemma ContactSteps()
    ensures InsertContact([], "Alice") == ["alice"]
    ensures InsertContact(["alice"], "ALICE") == ["alice"]
    ensures InsertContact(["alice"], "bob") == ["alice", "bob"]
  {
    CapitalisedAlice();
    ShoutedAlice();
    NormalNames();
    assert "bob" != "alice";
  }

  /** Names are stored lower-cased, once, in the order first seen. */
  method ContactsScenario() returns (contacts: seq<string>)
    ensures contacts == ["alice", "bob"]
  {
    var nb := new Notebook("u", "p", "b");
    ContactSteps();
    nb.AddContact("Alice");
    nb.AddContact("ALICE");
    nb.AddContact("bob");
    contacts := nb.GetContacts();
  }

  /** A message is filed under the sender when the user received it, and
      under the recipient when the user sent it; both parties become
      contacts, in the order the messages came. */
  method MessagesScenario(user: string, from: string, to: string, m1: Message, m2: Message)
    returns (received: seq<Message>, sent: seq<Message>, contacts: seq<string>)
    requires Normalize(user) == user && Normalize(from) == from && Normalize(to) == to
    requires from != "" && to != "" && from != to && from != user
    requires m1.sender == Some(from) && m1.recipient == Some(user)
    requires m2.sender == Some(user) && m2.recipient == Some(to)
    ensures received == [m1] && sent == [m2]
    ensures contacts == [from, to]
  {
    var nb := new Notebook(user, "pw", "bio");
    MessageSteps(user, from, to, m1, m2);
    nb.AddMessage(m1);
    assert nb.contacts == [from];
    nb.AddMessage(m2);
    assert nb.contacts == [from, to];
    received := nb.GetMessages(from);
    sent := nb.GetMessages(to);
    contacts := nb.GetContacts();
  }

  /** The exchange of `test_add_message_and_get_messages`. */
  method MessagesExample() returns (received: seq<Message>, sent: seq<Message>, contacts: seq<string>)
    ensures received == [Message(Some("alice"), Some("user"), "Hello", 1.23)]
    ensures sent == [Message(Some("user"), Some("bob"), "Hi", 2.34)]
    ensures contacts == ["alice", "bob"]
  {
    NormalNames();
    assert "alice" != "bob" && "alice" != "user";
    received, sent, contacts := MessagesScenario("user", "alice", "bob",
      Message(Some("alice"), Some("user"), "Hello", 1.23), Message(Some("user"), Some("bob"), "Hi", 2.34));
  }

  lemma MessageSteps(user: string, from: string, to: string, m1: Message, m2: Message)
    requires Normalize(user) == user && Normalize(from) == from && Normalize(to) == to
    requires from != "" && to != "" && from != to && from != user
    requires m1.sender == Some(from) && m1.recipient == Some(user)
    requires m2.sender == Some(user) && m2.recipient == Some(to)
    ensures OtherParty(user, m1) == from && OtherParty(user, m2) == to
    ensures InsertContact([], from) == [from] && InsertContact([from], to) == [from, to]
  {
    InsertNew([], from);
    InsertNew([from], to);
  }

  /** A new, normalised, non-empty name goes at the end of the contact list. */
  lemma InsertNew(cs: seq<string>, c: string)
    requires Normalize(c) == c && c != "" && c !in cs
    ensures InsertContact(cs, c) == cs + [c]
  {
  }

  /** Deleting at a valid index removes that diary; an out-of-range index changes nothing. */
  method DiariesScenario() returns (first: bool, second: bool, d2: Diary, afterFirst: seq<Diary>, afterSecond: seq<Diary>)
    ensures first && !second
    ensures afterFirst == [d2] && afterSecond == [d2]
    ensures d2.entry == "entry2"
  {
    var nb := new Notebook("u", "p", "b");
    var d1 := new Diary("entry1", 10.0, 0.0);
    d2 := new Diary("entry2", 20.0, 0.0);
    nb.AddDiary(d1);
    nb.AddDiary(d2);
    first := nb.DelDiary(0);
    afterFirst := nb.diaries;
    second := nb.DelDiary(5);
    afterSecond := nb.diaries;
  }

  /** The final component of a POSIX path, as `pathlib` finds it: empty and
      "." components are dropped. */
  function PathName(path: string): (name: string)
    ensures '/' !in name && name != "."
  {
    LastPart(Split(path, '/'))
  }

  /** A plain file name after a directory is the path's final component. */
  lemma PathNameInDir(dir: string, name: string)
    requires '/' !in name && name != "" && name != "."
    ensures PathName(dir + "/" + name) == name
  {
    SplitAppend(dir, name, '/');
    SplitPiece(name, '/');
    assert Split(dir + "/" + name, '/') == Split(dir, '/') + [name];
  }

  function LastPart(parts: seq<string>): (r: string)
    requires forall i, j :: 0 <= i < |parts| && 0 <= j < |parts[i]| ==> parts[i][j] != '/'
    ensures '/' !in r && r != "."
  {
    if parts == [] then ""
    else if parts[|parts| - 1] == "" || parts[|parts| - 1] == "." then LastPart(parts[..|parts| - 1])
    else
      var r := parts[|parts| - 1];
      assert forall j :: 0 <= j < |r| ==> r[j] != '/';
      r
  }

  /** `s.rfind(c)`: the last position of `c`, or -1. */
  function RFind(s: string, c: char): (i: int)
    ensures -1 <= i < |s|
    ensures i >= 0 ==> s[i] == c
    ensures forall j :: i < j < |s| ==> s[j] != c
  {
    if s == [] then -1
    else if s[|s| - 1] == c then |s| - 1
    else RFind(s[..|s| - 1], c)
  }

  /** `Path.suffix` of a file name: from its last dot on, provided the dot is
      neither the first nor the last character. */
  function Suffix(name: string): string {
    var i := RFind(name, '.');
    if 0 < i < |name| - 1 then name[i..] else ""
  }

  /** A file name that `pathlib` gives the suffix ".json": a non-empty stem followed by ".json". */
  predicate IsJsonName(name: string) {
    |name| > 5 && name[|name| - 5..] == ".json"
  }

  lemma JsonSuffix(name: string)
    ensures Suffix(name) == ".json" <==> IsJsonName(name)
  {
    var i := RFind(name, '.');
    if IsJsonName(name) {
      assert name[|name| - 5] == '.';
      assert forall j :: |name| - 5 < j < |name| ==> name[j] == name[|name| - 5..][j - (|name| - 5)];
      assert i == |name| - 5;
    }
    if Suffix(name) == ".json" {
      assert name[i..] == ".json";
    }
  }

  datatype FileCheck = Proceed | NotebookFileError(message: string)

  /** The check `save(path)` makes before touching the file system. */
  function SaveGuard(path: string): (r: FileCheck)
    ensures r.Proceed? <==> IsJsonName(PathName(path))
    ensures r.NotebookFileError? ==> r.message == "Notebook file must have a .json extension"
  {
    JsonSuffix(PathName(path));
    if Suffix(PathName(path)) != ".json" then NotebookFileError("Notebook file must have a .json extension")
    else Proceed
  }

  /** The check `load(path)` makes before reading; `fileExists` is whether the file exists. */
  function LoadGuard(path: string, fileExists: bool): (r: FileCheck)
    ensures r.Proceed? <==> fileExists && IsJsonName(PathName(path))
    ensures r.NotebookFileError? ==> r.message == path + " not found or not a .json file"
  {
    JsonSuffix(PathName(path));
    if !fileExists || Suffix(PathName(path)) != ".json" then NotebookFileError(path + " not found or not a .json file")
    else Proceed
  }

  /** `save` of `bad.txt` in any directory fails the extension check. */
  lemma SaveRejectsBadExtension(dir: string)
    ensures SaveGuard(dir + "/" + "bad.txt") == NotebookFileError("Notebook file must have a .json extension")
  {
    GuardsInDir(dir, "bad.txt", true);
    NoDotBeforeSuffix("bad.txt");
  }

  /** `load` of a `no.json` that does not exist fails. */
  lemma LoadRejectsMissingFile(dir: string)
    ensures LoadGuard(dir + "/" + "no.json", false) == NotebookFileError(dir + "/" + "no.json" + " not found or not a .json file")
  {
  }

  /** `load` of an existing `notebook.txt` fails the extension check. */
  lemma LoadRejectsBadExtension(dir: string)
    ensures LoadGuard(dir + "/" + "notebook.txt", true) ==
      NotebookFileError(dir + "/" + "notebook.txt" + " not found or not a .json file")
  {
    GuardsInDir(dir, "notebook.txt", true);
    NoDotBeforeSuffix("notebook.txt");
  }

  /** `save` of `fail.json` in any directory passes the check. */
  lemma SaveAcceptsJsonName(dir: string)
    ensures SaveGuard(dir + "/" + "fail.json").Proceed?
  {
    GuardsInDir(dir, "fail.json", true);
  }

  /** A name whose fifth character from the end is no dot does not end in ".json". */
  lemma NoDotBeforeSuffix(name: string)
    requires |name| > 5 && name[|name| - 5] != '.'
    ensures !IsJsonName(name)
  {
    assert name[|name| - 5..][0] == name[|name| - 5];
  }

  /** For a plain file name in a directory, both checks look at the name alone. */
  lemma GuardsInDir(dir: string, name: string, fileExists: bool)
    requires '/' !in name && name != "" && name != "."
    ensures SaveGuard(dir + "/" + name).Proceed? <==> IsJsonName(name)
    ensures LoadGuard(dir + "/" + name, fileExists).Proceed? <==> fileExists && IsJsonName(name)
  {
    PathNameInDir(dir, name);
  }
}
