/*
 * The directory store of the messaging demo: registered users, their plaintext
 * passwords, one inbox per recipient, and the prefix index of usernames that
 * serves autocompletion.
 *
 * The time at which a message is sent is passed in as an already formatted
 * string instead of being read from the clock.
 */
module Messaging {
  import opened PrefixIndex

  /** What `ReceiveMessages` shows for an empty inbox. */
  const NoNewMessages: string := "No new messages."

  /** Every delivered message starts with this. */
  const SenderTag: string := "From: "

  /** The text stored for one delivered message. Its sender follows the sender tag
      and its body closes it. */
  function FormatMessage(fromUser: string, timestamp: string, message: string): (r: string)
    ensures SenderTag <= r
    ensures |SenderTag| + |fromUser| <= |r| && r[|SenderTag|..|SenderTag| + |fromUser|] == fromUser
    ensures |message| <= |r| && r[|r| - |message|..] == message
    ensures r != NoNewMessages
  {
    var r := SenderTag + fromUser + " | Time: " + timestamp + " | Message: " + message;
    assert r[..|SenderTag|] == SenderTag;
    assert r[|SenderTag|..|SenderTag| + |fromUser|] == fromUser;
    assert r[|r| - |message|..] == message;
    assert r[0] != NoNewMessages[0];
    r
  }

  class RealTimeMessagingApp {
    /** Registered usernames; each maps to itself. */
    var users: map<string, string>
    var passwords: map<string, string>
    /** Inboxes in delivery order; a user without an entry has an empty inbox. */
    var messages: map<string, seq<string>>
    var trie: Trie

    /** The index stores exactly the registered usernames; every registered user has
        a password; inboxes belong to registered users and hold formatted messages. */
    ghost predicate Valid()
      reads this, trie
    {
      && trie.Valid()
      && users.Keys == trie.Words()
      && passwords.Keys == users.Keys
      && (forall u :: u in users ==> users[u] == u)
      && messages.Keys <= users.Keys
      && (forall u, k :: u in messages && 0 <= k < |messages[u]| ==> SenderTag <= messages[u][k])
    }

    /** The inbox of `username`, empty when nothing was ever delivered to it. */
    function Inbox(username: string): seq<string>
      reads this
    {
      if username in messages then messages[username] else []
    }

    /** A store with no users and no messages. */
    constructor ()
      ensures Valid() && fresh(trie)
      ensures users == map[] && passwords == map[] && messages == map[]
    {
      users := map[];
      passwords := map[];
      messages := map[];
      trie := new Trie();
    }

    /** Registers `username` with `password` unless the name is taken. A taken name
        changes nothing; otherwise the name is added to the users and to the index
        and its password is recorded. */
    method RegisterUser(username: string, password: string) returns (ok: bool)
      requires Valid()
      modifies this, trie
      ensures Valid() && trie == old(trie)
      ensures ok <==> username !in old(users)
      ensures !ok ==> users == old(users) && passwords == old(passwords)
                      && trie.Words() == old(trie.Words()) && trie.nodes == old(trie.nodes)
      ensures ok ==> users == old(users)[username := username]
                     && passwords == old(passwords)[username := password]
                     && trie.Words() == old(trie.Words()) + {username}
      ensures messages == old(messages)
    {
      if username in users {
        return false;
      }
      users := users[username := username];
      passwords := passwords[username := password];
      trie.Insert(username);
      ok := true;
    }

    /** Succeeds exactly when `username` is registered with exactly `password`. */
    function LoginUser(username: string, password: string): (ok: bool)
      reads this, trie
      requires Valid()
      ensures ok <==> username in passwords && passwords[username] == password
      ensures ok ==> username in trie.Words()
    {
      username in users && passwords[username] == password
    }

    /** Delivers `message` from `fromUser` to `toUser` at `timestamp` when the recipient
        is registered (the sender is not checked), appending one formatted entry to the
        end of the recipient's inbox; every other inbox, and everything else, is kept. */
    method SendMessage(fromUser: string, toUser: string, message: string, timestamp: string)
      returns (ok: bool)
      requires Valid()
      modifies this
      ensures Valid()
      ensures users == old(users) && passwords == old(passwords) && trie == old(trie)
      ensures ok <==> toUser in users
      ensures !ok ==> messages == old(messages)
      ensures ok ==> messages == old(messages)[toUser := old(Inbox(toUser)) + [FormatMessage(fromUser, timestamp, message)]]
      ensures ok ==> ReceiveMessages(toUser) == old(Inbox(toUser)) + [FormatMessage(fromUser, timestamp, message)]
    {
      if toUser !in users {
        return false;
      }
      var fullMessage := FormatMessage(fromUser, timestamp, message);
      messages := messages[toUser := Inbox(toUser) + [fullMessage]];
      ok := true;
    }

    /** The inbox of `username` in delivery order, or the single placeholder line when
        it is empty. Never empty, and the placeholder shows exactly when no message
        was delivered. */
    function ReceiveMessages(username: string): (r: seq<string>)
      reads this, trie
      requires Valid()
      ensures r != []
      ensures r == [NoNewMessages] <==> Inbox(username) == []
      ensures Inbox(username) != [] ==> r == Inbox(username)
    {
      if username !in messages || messages[username] == [] then
        [NoNewMessages]
      else
        assert SenderTag <= messages[username][0];
        assert messages[username][0][0] != NoNewMessages[0];
        messages[username]
    }

    /** The registered usernames that start with `prefix`, each once, as the index lists them. */
    method AutocompleteUsers(prefix: string) returns (r: seq<string>)
      requires Valid()
      ensures forall w :: w in r <==> w in users && prefix <= w
      ensures NoDuplicates(r)
      ensures r == [] <==> forall w :: w in users ==> !(prefix <= w)
      ensures prefix in users ==> r != [] && r[0] == prefix
    {
      r := trie.Search(prefix);
    }
  }
}
