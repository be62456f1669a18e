# Real-time messaging demo: prefix index and directory store

This project models the in-memory core of a small desktop messaging demo and proves
properties of it in Dafny. The core has two parts.

- **Prefix index** (module `PrefixIndex`, class `Trie`). This is a trie of usernames. Each
  node maps a character to a child node and carries an end-of-word flag. `Insert` walks a
  word from the root. It creates each missing child on the way and marks the last node as
  the end of a word. `Search` walks a prefix. It returns nothing as soon as a character has
  no edge. Otherwise `AutocompleteFromNode` lists, depth-first, every word below the node
  reached: the node's own word first, then each child's words in the order the children
  were added.
- **Directory store** (module `Messaging`, class `RealTimeMessagingApp`). It holds three
  maps and the trie:
  - `users`: each registered name maps to itself;
  - `passwords`: plaintext passwords;
  - `messages`: each recipient's inbox in delivery order.

  Registration rejects a taken name. Login compares passwords exactly. Sending rejects an
  unknown recipient and appends one formatted line to the recipient's inbox. Receiving
  returns the inbox, or the single line `No new messages.` when the inbox is empty.
  Autocompletion asks the trie.

How the model represents the source:

- **Trie nodes.** The nodes live in an arena, the sequence `Trie.nodes`. A reference to a
  node is its position in the arena, and creating a node appends it. A node's children
  dictionary is a sequence of (character, child) edges in insertion order. That is the
  order in which the dictionary yields its items, so the model lists search results in the
  source's order.
- **Ghost bookkeeping.** Three ghost fields record, for each node:
  - `spelling`: the string it spells from the root;
  - `parent`: the node whose edge leads to it;
  - `slot`: that edge's position among the parent's children.

  `Trie.Valid()` ties these fields to the edges.
- **Abstract meaning.** The index means the set `Words()`: the spellings of end-of-word
  nodes. `RealTimeMessagingApp.Valid()` keeps the store's invariant that the registered
  names are exactly `trie.Words()`.
- **Inputs from outside.** The time a message is sent is a parameter holding the already
  formatted timestamp. A stored message is
  `"From: " + sender + " | Time: " + timestamp + " | Message: " + body`.

Two behaviours of the code are easy to miss, and the model follows them:

- Registration does not create an inbox. An inbox comes into being at the first delivery
  (`real_time..py:48`, `70`), and a user without one reads as having an empty inbox.
- The empty username is accepted. It marks the root as a stored word.

`scenarios.dfy` holds three verified client methods. From the contracts alone they show:

- a second registration of `alice` fails, and only the first password logs in;
- `al` completes to both `alice` and `alan`, `ali` only to `alice`, and `z` to nothing;
- a message to an unregistered user is refused, and one to a registered user is the single
  entry of that user's inbox afterwards.

## Model

| member | source | states |
|---|---|---|
| `PrefixIndex.FindEdge` | real_time..py:27-30 | finds the edge labelled `c` if and only if some edge of the node carries `c`; the position returned holds `c`, and no earlier edge does |
| `PrefixIndex.Trie.constructor` | real_time..py:7-15 | a new index is a root with no children and stores no word |
| `PrefixIndex.Trie.Insert` | real_time..py:17-23 | afterwards the stored words are the previous ones plus `word`, and the index stays well formed; inserting a word already stored changes no node at all (idempotent) |
| `PrefixIndex.Trie.AddChild` | real_time..py:20-21 | a missing child is appended under a new edge, which extends the parent's spelling by `c`; every other node is kept, and the stored words do not change |
| `PrefixIndex.Trie.MarkEndOfWord` | real_time..py:23 | setting the flag stores exactly the node's spelling in addition; when the flag was already set, nothing changes |
| `PrefixIndex.Trie.Search` | real_time..py:25-31 | the result holds a string exactly when it is a stored word that starts with `prefix`, holds no string twice, is empty exactly when no stored word starts with `prefix`, is empty when no node spells `prefix` (a character had no child), and starts with `prefix` when `prefix` is itself stored |
| `PrefixIndex.Trie.AutocompleteFromNode` | real_time..py:33-41 | the list built is the depth-first enumeration `Subtree(node, prefix)`: the node's own word first, then each child's words in insertion order |
| `PrefixIndex.Trie.LabelInjective` | real_time..py:18-22 | two nodes spelling the same string are one node, because a child is created only where none exists |
| `PrefixIndex.Trie.Ancestor` | real_time..py:19-22 | every prefix of a node's spelling is spelled by some node |
| `PrefixIndex.Trie.EdgeToward` | real_time..py:26-30 | a node has an edge, labelled with the next character, towards every node whose spelling strictly extends its own |
| `PrefixIndex.Trie.NotStoredBeyondMissingEdge` | real_time..py:27-29 | when a character has no child, no stored word starts with the prefix, and no node spells it, which justifies returning the empty list |
| `PrefixIndex.Trie.SubtreeShape` | real_time..py:33-41 | every word listed below a node starts with the prefix passed down, and none is listed twice |
| `PrefixIndex.Trie.KidsShape` | real_time..py:38-39 | the words collected from the first `i` children are longer than the prefix, continue with one of those children's characters, and are distinct |
| `PrefixIndex.Trie.SubtreeSound` | real_time..py:33-41 | every word listed below a node, given the node's own spelling as prefix, is a stored word |
| `PrefixIndex.Trie.KidsSound` | real_time..py:38-39 | every word collected from a node's first `i` children is a stored word |
| `PrefixIndex.Trie.SubtreeComplete` | real_time..py:33-41 | every stored word that starts with a node's spelling is listed below that node |
| `PrefixIndex.Trie.KidsContain` | real_time..py:38-39 | the words below child `j` are among those collected from the first `i` children, for `j < i` |
| `Messaging.FormatMessage` | real_time..py:69 | the stored line starts with `From: ` followed by the sender, ends with the body, and never equals the empty-inbox placeholder |
| `Messaging.RealTimeMessagingApp.constructor` | real_time..py:45-49 | a new store has no users, no passwords, no inboxes and an empty index |
| `Messaging.RealTimeMessagingApp.RegisterUser` | real_time..py:51-57 | fails exactly when the name is taken, and then changes nothing; otherwise it adds the name to `users`, records the password, and adds the name to the index; names stay equal to the index's words, and inboxes are untouched |
| `Messaging.RealTimeMessagingApp.LoginUser` | real_time..py:59-62 | succeeds exactly when the name has a password equal to the one given; a successful login's name is in the index |
| `Messaging.RealTimeMessagingApp.SendMessage` | real_time..py:64-71 | fails exactly when the recipient is not registered, and then changes nothing; otherwise it appends exactly one formatted line to the end of the recipient's inbox, which receiving then returns, and leaves every other inbox, the users, the passwords and the index alone |
| `Messaging.RealTimeMessagingApp.ReceiveMessages` | real_time..py:73-76 | never empty; the result is the placeholder line exactly when the inbox is empty, and otherwise the inbox in delivery order |
| `Messaging.RealTimeMessagingApp.AutocompleteUsers` | real_time..py:78-79 | lists exactly the registered names that start with `prefix`, each once, is empty exactly when no registered name starts with `prefix`, with `prefix` first when it is a registered name |

## Left out

- The window class and the program entry point (`real_time..py:82-252`) are not modelled. They are widgets, event bindings and message boxes, with no logic to state.
- Reading the wall clock and formatting it with `strftime` (`real_time..py:68`) is not modelled. It depends on the operating system's clock and locale, so the formatted timestamp is a parameter.
- Node identity is an arena position rather than an object reference. Nodes are never shared or removed, so no aliasing is lost.
- The default-dictionary inbox is a map in which a missing key means an empty inbox. The first delivery to a user creates the key.
- Messaging.RealTimeMessagingApp.ReceiveMessages: returns a copy of the inbox. The source returns the live list, so a caller that mutated it would change the store; that aliasing is not modelled.
- Python's recursion limit, which a very long username could reach in the depth-first listing, is not modelled; the model's recursion is unbounded.
- Passwords are stored and compared in plain text, as in the source; no hashing is modelled.
