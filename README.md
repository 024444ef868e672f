# Telnet deep links in pnet-tool

pnet-tool is a desktop application that opens telnet sessions. It can be started, or
re-invoked while already running, with `telnet://host[:port]` deep links on its command
line. This project models the application's deep-link front end and proves properties of
that model:

- **`parse_telnet_url`**: normalises one argument and turns it into a launch request. The
  argument is trimmed of Unicode whitespace, and a blank argument is refused. `telnet://`
  is prepended unless the argument already starts with it in some letter case. The host
  and optional port are then taken from the URL parser's result, and the label is left
  empty. This is module `TelnetUrl` in `telnet_url.dfy`.
- **Argument collection**: the loops in the single-instance callback and in `setup` skip
  the program path and turn each argument that parses into an `Open` action, in argument
  order.
- **The pending-action queue**: `PendingActions` is extended with each non-empty batch.
  `consume_pending_telnet_actions` hands the front end everything queued and clears the
  queue.

The last two are module `DeepLinks` in `deep_links.dfy`.

The URL parser, a WHATWG URL Standard implementation, is a parameter of type
`TelnetUrl.UrlParser`. It maps a string to `None` (not a URL) or to a `ParsedUrl` holding
an optional host and an optional 16-bit port. Every result about `ParseTelnetUrl` holds for
every such parser. The request's `label` field is called `displayLabel`, because `label` is
a Dafny keyword. The queue is a class `DeepLinks.PendingActions` with a
`seq<TelnetAction>` field. Its `Extend` method and `ConsumePendingTelnetActions` change that
field in place. The command-line loop is the method `CollectActions`. It is proved against
the specification function `OpenActions`, and the lemmas state the properties of that
function.

## Model

| member | source | states |
|---|---|---|
| `TelnetUrl.IsWhitespace` | src-tauri/src/main.rs:28 | the characters `trim()` removes, Unicode's White_Space set: within ASCII exactly the space and tab through carriage return, and otherwise only characters between U+0085 and U+3000 |
| `TelnetUrl.TrimStart` | src-tauri/src/main.rs:28 | the leading half of `trim()`: the result is no longer than the input and does not start with whitespace (full characterisation in `TrimStartSpec`) |
| `TelnetUrl.TrimEnd` | src-tauri/src/main.rs:28 | the trailing half of `trim()`: the result is no longer than the input and does not end with whitespace (full characterisation in `TrimEndSpec`) |
| `TelnetUrl.Trim` | src-tauri/src/main.rs:28 | `trim()`: the result is no longer than the argument and has no whitespace at either end (full characterisation in `TrimSpec`) |
| `TelnetUrl.TrimStartSpec` | src-tauri/src/main.rs:28 | the result is the suffix of the input left once all leading whitespace is dropped: everything dropped is whitespace and the result does not start with whitespace |
| `TelnetUrl.TrimEndSpec` | src-tauri/src/main.rs:28 | the result is the prefix of the input left once all trailing whitespace is dropped: everything dropped is whitespace and the result does not end with whitespace |
| `TelnetUrl.TrimSpec` | src-tauri/src/main.rs:28 | `trim()` yields a slice of the argument with only whitespace around it and no whitespace at either end; it is empty exactly when the argument is blank |
| `TelnetUrl.TrimmedIsFixed` | src-tauri/src/main.rs:28 | a string with no whitespace at its ends is unchanged by trimming |
| `TelnetUrl.TrimIdempotent` | src-tauri/src/main.rs:28 | trimming twice gives the same as trimming once |
| `TelnetUrl.TrimStartSkipsPadding` | src-tauri/src/main.rs:28 | whitespace added in front of a string does not change its leading trim |
| `TelnetUrl.TrimEndSkipsPadding` | src-tauri/src/main.rs:28 | whitespace added after a string does not change its trailing trim |
| `TelnetUrl.TrimStartAppend` | src-tauri/src/main.rs:28 | for a non-blank string, text appended after it is kept whole by the leading trim |
| `TelnetUrl.AllWhitespaceTrimsToEmpty` | src-tauri/src/main.rs:28-29 | a blank argument trims to the empty string |
| `TelnetUrl.TrimIgnoresPadding` | src-tauri/src/main.rs:28 | whitespace on either side of an argument does not change its trimmed form |
| `TelnetUrl.LowerAscii` | src-tauri/src/main.rs:32 | each upper-case ASCII letter maps to its own lower-case letter (`'T'` to `'t'`) and every other character is unchanged |
| `TelnetUrl.HasTelnetScheme` | src-tauri/src/main.rs:32 | the scheme test is an ASCII case-insensitive comparison of the first nine characters with `telnet://`: a string that passes is at least nine characters long, has `://` at positions 6 to 8 and does not start with whitespace; `telnet://…` and `TELNET://…` both pass |
| `TelnetUrl.Normalize` | src-tauri/src/main.rs:28-35 | there is no string to parse exactly when the argument is blank. Otherwise the string starts with `telnet://` in some letter case and has no surrounding whitespace. It is the trimmed argument when that already carries the scheme, and `telnet://` followed by the trimmed argument when it does not |
| `TelnetUrl.SchemePrefixed` | src-tauri/src/main.rs:32-35 | `telnet://` put in front of a non-empty trimmed string gives a trimmed string that carries the scheme |
| `TelnetUrl.NormalizeIdempotent` | src-tauri/src/main.rs:28-35 | normalising an already normalised string returns it unchanged |
| `TelnetUrl.NormalizeIgnoresPadding` | src-tauri/src/main.rs:28-35 | surrounding whitespace never changes the normalised string |
| `TelnetUrl.NormalizeAddsScheme` | src-tauri/src/main.rs:32-35 | a trimmed argument without the scheme normalises to the same string as that argument written with `telnet://` in front |
| `TelnetUrl.ParseTelnetUrl` | src-tauri/src/main.rs:25-40 | a blank argument yields no request. Otherwise there is no request exactly when the URL parser refuses the normalised string or the parsed URL has no host. A request carries the parsed host and the parsed optional port, and never a label |
| `TelnetUrl.ParseIgnoresPadding` | src-tauri/src/main.rs:25-40 | whitespace around an argument never changes the request it yields |
| `TelnetUrl.ParseSchemeOptional` | src-tauri/src/main.rs:32-36 | `host:port` without a scheme and `telnet://host:port` yield the same request, for every URL parser |
| `DeepLinks.SkipProgramPath` | src-tauri/src/main.rs:60 | `skip(1)` drops exactly the first argument and keeps the rest in order; an empty argument vector gives no arguments |
| `DeepLinks.ActionFor` | src-tauri/src/main.rs:61-63 | one argument yields one `Open` action carrying its request when it parses, and no action when it does not |
| `DeepLinks.OpenActions` | src-tauri/src/main.rs:59-64 | collecting over a list of arguments never yields more actions than there are arguments |
| `DeepLinks.OpenActionsAppend` | src-tauri/src/main.rs:59-64 | collection keeps argument order: the actions of two consecutive argument lists are the first list's actions followed by the second's |
| `DeepLinks.OpenActionsComplete` | src-tauri/src/main.rs:60-63 | every argument that parses contributes its `Open` action |
| `DeepLinks.OpenActionsSound` | src-tauri/src/main.rs:60-63 | every collected action carries the request of some argument |
| `DeepLinks.OpenActionsAllParse` | src-tauri/src/main.rs:60-63 | there are as many actions as arguments if and only if every argument parses |
| `DeepLinks.CollectActions` | src-tauri/src/main.rs:76-81 | the collection loop returns exactly the `Open` actions of the arguments after the program path, in argument order, and at most one per argument |
| `DeepLinks.PendingActions.constructor` | src-tauri/src/main.rs:22-23 | a new pending-action queue is empty |
| `DeepLinks.PendingActions.Extend` | src-tauri/src/main.rs:68 | after extending, the queue holds its old contents followed by the batch, in order |
| `DeepLinks.ConsumePendingTelnetActions` | src-tauri/src/main.rs:42-48 | the result is exactly the queued sequence, in order, and the queue is left empty, so a second consume in a row returns nothing |
| `DeepLinks.OnSecondInstance` | src-tauri/src/main.rs:57-73 | a later invocation appends its arguments' actions to the queue and emits the same batch. When there are no actions, the queue is untouched and nothing is emitted |
| `DeepLinks.Setup` | src-tauri/src/main.rs:74-90 | at start-up the program's own arguments' actions are appended to the queue; when there are none, the queue is untouched |

## Left out

- The URL parser (`Url::parse`, `host_str`, `port`) is a parameter, not a model of the WHATWG URL Standard. The results hold for every parser, and they say nothing about which strings a real parser accepts.
- The scheme test at src-tauri/src/main.rs:32 lower-cases the whole argument with Unicode case mapping. The model compares the first nine characters ASCII-case-insensitively. No character outside ASCII lower-cases to a letter of `telnet`, so the two agree on this prefix, but Unicode case mapping is not modelled.
- The mutex around the queue is not modelled, and the queue is a single-owner object. Locking, `lock().unwrap()` panicking on a poisoned lock in `consume_pending_telnet_actions`, the callbacks silently dropping a batch on a poisoned lock, and `Arc` sharing are all left out.
- `app.try_state` is taken to find the queue, because `main` always registers it with `manage`. The branch where it is missing is not modelled.
- `OnSecondInstance`: the `telnet://requests` event is the method's result, not an emitted event. Delivery and the ignored emit error are I/O.
- Reading `std::env::args()` is left out, including its panic on an argument that is not valid Unicode. The argument vector is a parameter.
- The Tauri builder, its plugins, the command registration (`invoke_handler`) and `run` are framework wiring.
- The serde attributes on `TelnetAction` and `TelnetLaunchRequest` only shape the JSON wire form. The model has the plain datatypes.
- The terminal-session registry is not part of this model: starting, writing to, resizing and killing telnet subprocesses on pseudo-terminals, and the background reader that forwards their output. None of it appears in src-tauri/src/main.rs.
