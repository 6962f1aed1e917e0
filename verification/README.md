# Supfile configuration model

A Dafny model of the configuration layer of `sup`, the Stack Up deployment
tool (`supfile.go`). It covers everything that turns an already decoded
Supfile into validated data:

- **Host strings** (`hosts.dfy`). `NewHost` parses `[ssh://][user@]host[:port]`
  and applies the SSH client configuration. The `Host` accessors are modelled,
  and so is the conversion of a network's `hosts:` list.
- **Environment lists** (`env.dfy`). `EnvVar` and `EnvList`: update-or-append
  by key (`Set`), decoding as a fold of `Set`, rendering as `KEY=VALUE` and as
  `export` statements, and the order in which `ResolveValues` builds its
  scripts.
- **Named collections** (`collections.dfy`). `Networks`, `Commands` and
  `Targets` are a list of names next to a map, with `Get` and `Networks.Set`.
- **The version gate of `NewSupfile`** (`supfile.dfy`). The fallthrough switch
  `"" → 0.1 → 0.2 → 0.3 → {0.4, 0.5}` rejects fields that older versions do not
  know, migrates `run_once` to `once`, and refuses unknown versions.
- **Inventory output** (`inventory.dfy`). `Network.ParseInventory` turns the
  captured output of the inventory command into hosts.
- **Support modules.** `text.dfy` holds the Go string primitives the model
  needs (`strings.LastIndex`, `strings.IndexByte`, `strings.Cut`,
  `strings.TrimSpace` with `unicode.IsSpace`, and `%d`). `wrappers.dfy` holds
  `Option` and `Result`.

Collaborators outside the file are parameters:

- the current OS user, the SSH-config table, `ResolvePath` and the bracketed
  form of `net.SplitHostPort` (`Hosts.Resolver`);
- the working directory and `bash` (`Env.ResolveValues`);
- the inventory command's execution (`Inventory.ParseInventory`);
- Go's map iteration order (the `order` argument of the gate, constrained by
  `Supfile.IsIterationOrder`).

Where the gate loops over a map, the model proves the order-independent
statements as such. In particular, *some* `ErrMustUpdate` is returned, and
which command field it names may depend on the order.

## Model

| member | source | states |
|---|---|---|
| Hosts.SplitHostPort | supfile.go:115-121 | for an unbracketed address: no colon is a missing-port error; a success yields colon-free host and port that join back, with ":", to the input, and the input holds no bracket |
| Hosts.SplitHostPortJoin | supfile.go:115-121 | splitting `host:port` gives back a colon-free, bracket-free host and port |
| Hosts.StripScheme | supfile.go:89-92 | the input is kept, or it is "ssh://" followed by the non-empty result; a prefix "ssh://" with more after it is always removed |
| Hosts.SplitUser | supfile.go:94-98 | the host part holds no "@"; with an "@" present, user, "@" and host rebuild the input; without one the user is empty and the host is the input |
| Hosts.SplitUserAtLast | supfile.go:94-98 | the user part ends at the last "@": whatever precedes an "@"-free remainder is the user |
| Hosts.StripSchemePrefix | supfile.go:90-92 | "ssh://" followed by a non-empty rest is removed |
| Hosts.BareSchemeIsMalformed | supfile.go:90-111 | a string of exactly "ssh://" keeps its prefix, so its slashes make it an unexpected-slash error |
| Hosts.SchemeIsOptional | supfile.go:90-92 | for a non-empty, slash-free string, parsing with or without the "ssh://" prefix gives the same result |
| Hosts.ParseUserHost | supfile.go:94-123 | user lookup fails iff no user is given and the OS user is unknown; the slash error happens iff the lookup passed and the text after the last "@" holds "/"; without ":" the port is "22" and the address is the rest; with ":" the address error happens iff SplitHostPort fails and is its error, and a success carries SplitHostPort's host and port; a success has the given user, or else the OS user, and empty identity file, alias and bastion |
| Hosts.ParseUserHostExplicit | supfile.go:94-123 | "user@host:port" with a non-empty user gives exactly that user, host and port, even when the user holds "@" or "/" |
| Hosts.ParseUserHostBadAddress | supfile.go:114-121 | with an explicit user, an address that SplitHostPort refuses fails the host with SplitHostPort's own error |
| Hosts.ExtraColonIsBadAddress | supfile.go:114-121 | "u@a:b:c" is refused with the "too many colons" address error |
| Hosts.ApplySshConfig | supfile.go:124-133 | an address absent from the SSH-config table leaves the host unchanged; a present one replaces user, address, port (as `%d`), identity file (resolved), alias (first alias) and bastion from the entry |
| Hosts.NewHost | supfile.go:87-135 | fails exactly when the inline parse fails, with its error; otherwise the SSH-config override of the parsed host |
| Hosts.NewHostFullString | supfile.go:87-135 | "ssh://user@host:port" for a host not in the SSH config parses to exactly that user, host and port |
| Hosts.NewHostBareAddress | supfile.go:100-123 | a bare address takes the OS user and port "22" |
| Hosts.GetHostname | supfile.go:67-72 | the alias when one is set, otherwise the address |
| Hosts.HostnameOfNewHost | supfile.go:124-133 | a parsed host whose inline address names an SSH-config entry is displayed by the entry's first alias, or by its host name when that alias is empty; any other host is displayed by its inline address |
| Hosts.GetPrefixText | supfile.go:75-83 | the log prefix is the display name when an alias is set, else "user@" followed by the dial address, then " \| " |
| Hosts.GetHost | supfile.go:62-64 | the dial address of a host whose address and port hold no colon or bracket splits back into exactly that address and port |
| Hosts.ParseHosts | supfile.go:41-47 | all host strings parse iff the result is Ok; the hosts are the parses in order; an error is the error of the first string that fails |
| Supfile.DecodeNetwork | supfile.go:36-49 | a decoded network keeps its plain fields and holds one parsed host per declared string, or fails with the error of the first string that does not parse |
| Env.FindKey | supfile.go:304-309 | the first position holding the key, or none exactly when no entry has it |
| Env.Set | supfile.go:303-316 | an existing key keeps its position and length, and only the value of its first entry changes, every other entry staying as it was; a new key is appended at the end; the key then maps to the value, every other key's lookup is unchanged, and unique keys stay unique |
| Env.FromItems | supfile.go:286-301 | the decoded list has unique keys |
| Env.FromItemsKeys | supfile.go:286-301 | the decoded list holds exactly the declared keys |
| Env.FromItemsValues | supfile.go:286-301 | each key holds the value of its last declaration |
| Env.FromItemsOrderPair | supfile.go:286-301 | of two entries of the decoded list, the earlier one's key was declared first |
| Env.FromItemsOrder | supfile.go:286-301 | keys appear in the order of their first declaration |
| Env.FromItemsSpec | supfile.go:286-301 | unique keys, exactly the declared ones, in first-declaration order, each with its last value |
| Env.EnvVar.String | supfile.go:265-267 | `KEY=VALUE` cut at its first "=" gives back key and value when the key has no "=" |
| Env.Slice | supfile.go:278-284 | same length as the list, entry i is the i-th variable's `KEY=VALUE` |
| Env.SliceCutsBack | supfile.go:278-284 | every entry of the slice reads back as the variable at the same position |
| Env.EnvVar.AsExport | supfile.go:270-272 | `export KEY="VALUE";` reads back as the variable it exports when the key has no "=" |
| Env.AsExport | supfile.go:344-352 | the rendering is empty iff the list is |
| Env.AsExportConcat | supfile.go:344-352 | rendering distributes over list concatenation: it is the in-order concatenation of the entries' `export ...; ` statements |
| Env.AsExportAfterNewKey | supfile.go:344-352 | setting a new key adds exactly its statement and a space at the end of the rendering |
| Env.ResolveScriptPrefix | supfile.go:324-328 | the script run for entry i depends on entries 0..i only |
| Env.ResolveEach | supfile.go:323-341 | Ok iff the shell succeeds on every entry's script; an Ok list has each value replaced by the shell output of its own script; an error names the first entry the shell fails on |
| Env.ResolveValues | supfile.go:318-342 | an empty list resolves to the empty list; a failing working directory fails a non-empty list; otherwise as `ResolveEach` |
| Collections.ToMap | supfile.go:143-147 | the map holds exactly the declared names, each with the entry of its last declaration |
| Collections.Decode | supfile.go:143-161 | `Names` lists the decoded keys in declaration order, one per item, and names exactly the keys of the map |
| Collections.Get | supfile.go:163-166 | never fails: `(entry, true)` iff the name is in the map, otherwise the zero value and false |
| Collections.GetAfterDecode | supfile.go:215-218 | a declared name is found with its last declaration's entry |
| Collections.GetUndeclared | supfile.go:246-249 | an undeclared name is reported missing with the zero value |
| Collections.Set | supfile.go:168-171 | the entry is stored and the name appended even when it is already listed; other names and entries are unchanged |
| Collections.SetTwiceListsNameTwice | supfile.go:168-171 | setting a name twice lists it twice and the later entry wins |
| Supfile.CommandFeature | supfile.go:393-403 | a command is refused below 0.3 exactly when it sets `once`, `local` or a non-zero `serial`, and `once` is named first, then `local`, then `serial` |
| Supfile.FirstFeature | supfile.go:393-403 | the loop finds nothing iff no visited command is refused; what it finds is the field of some visited command |
| Supfile.FirstFeatureFindsAnyUse | supfile.go:393-403 | the loop stops iff some command sets `once`, `local` or `serial`, whatever the visiting order |
| Supfile.StopsInEveryOrder | supfile.go:393-403 | whether the loop stops is the same for every iteration order |
| Supfile.Rejection | supfile.go:379-430 | no error iff the version is one of "", 0.1..0.5 and every used field is accepted at it; unsupported-version iff the version is unknown, carrying the version as written; a must-update error names the effective version and a field the file uses that the version does not accept; `run_once` is reported before the other fields at 0.1; inventory is reported only when no command is refused; a refused command field is exhibited by some command |
| Supfile.Migrate | supfile.go:414-418 | a migrated command has `once` iff it had `once` or `run_once`, and differs in nothing else |
| Supfile.MigrateCommands | supfile.go:413-419 | names and keys are kept; only `once` changes, becoming `once` or `run_once` when migration is on |
| Supfile.MigrateCommandsIdempotent | supfile.go:413-419 | migrating twice equals migrating once |
| Supfile.MigrateKeepsRunOnce | supfile.go:413-419 | migration leaves every `run_once` flag as it was |
| Supfile.Migration | supfile.go:411-426 | the result is the input with the version made explicit and, up to 0.3, each command's `once` set when it had `run_once`; there is one warning, naming the effective version, iff the version is at most 0.3 and some command uses `run_once` |
| Supfile.CheckVersion | supfile.go:371-433 | Ok iff the version is supported and accepts every used field; an error is the switch's rejection; a success is the migration |
| Supfile.OrderOnlyPicksTheReportedField | supfile.go:385-408 | Go's map order only decides which command field is reported: success, the migrated file, the warning and every other error are the same in every order |
| Supfile.EveryOffendingCommandCanBeNamed | supfile.go:393-403 | for every refused command there is an iteration order in which the error names its field |
| Supfile.EmptyVersionActsAsV01 | supfile.go:380-382 | a missing version behaves exactly like "0.1", including the version recorded and named |
| Supfile.AcceptanceIsMonotone | supfile.go:379-409 | a Supfile accepted at one version is accepted at every later supported version |
| Supfile.RunOnceBecomesOnce | supfile.go:411-419 | up to 0.3 an accepted command with `run_once` comes out with both `once` and `run_once` set |
| Supfile.GateIsIdempotentFromV03 | supfile.go:411-426 | from 0.3 on, the gate's output passes the gate again unchanged, with the same warning |
| Supfile.OnceRefusedAtV02 | supfile.go:392-396 | a 0.2 file with a `once` command is refused for `command.once` in v0.2 |
| Supfile.UnchangedFromV04 | supfile.go:426-426 | at 0.4 and 0.5 every file passes unchanged and without warning |
| Supfile.RunOnceMigratedAtV03 | supfile.go:411-422 | a 0.3 file with a `run_once` command passes with `once` set and the single deprecation warning for v0.3 |
| Supfile.UnknownVersionIsUnsupported | supfile.go:428-429 | "0.6" and "v0.5" are refused as unsupported, whatever the file holds |
| Inventory.ParseInventory | supfile.go:437-471 | no inventory gives no hosts; a failing command's error is returned; otherwise the hosts of its output |
| Inventory.NextLine | supfile.go:454-458 | one read: nothing iff no newline remains; otherwise a line ending in its only newline, which together with the rest is the input |
| Inventory.ReadLinesAreLines | supfile.go:452-460 | every piece read is a line ending in its only newline |
| Inventory.ReadLinesCoverOutput | supfile.go:452-460 | the lines read make up the output up to its last newline, and no newline follows them |
| Inventory.ReadLinesAppend | supfile.go:452-460 | output made of whole lines reads as the lines of each part, in order |
| Inventory.NoNewlineNoLines | supfile.go:454-458 | text without a newline yields no line |
| Inventory.ReadOneLine | supfile.go:454-454 | one newline-terminated line reads as exactly that line |
| Inventory.KeepHosts | supfile.go:453-469 | each line yields at most one host |
| Inventory.HostsOfOutput | supfile.go:451-470 | at most one host per complete line of output, each carrying only an address |
| Inventory.KeepHostsAppend | supfile.go:453-469 | each line is handled on its own: more lines append their hosts |
| Inventory.PartialLastLineIsDropped | supfile.go:454-458 | text after the last newline contributes no host |
| Inventory.AppendedLineAddsItsHost | supfile.go:453-469 | appending a line adds exactly that line's hosts at the end |
| Inventory.LineHost | supfile.go:462-468 | the host of a line has the trimmed line as address and every other field empty |
| Inventory.KeepHostsShape | supfile.go:453-469 | every host read has a non-empty address that does not start with "#", and no other field set |
| Inventory.NameLine | supfile.go:462-468 | a plain host name line gives that host |
| Inventory.IndentedNameLine | supfile.go:462-468 | surrounding white space is trimmed from a host line |
| Inventory.CommentLine | supfile.go:464-466 | a line starting with "#" gives no host |
| Inventory.BlankLine | supfile.go:464-466 | a blank line gives no host |
| Inventory.HostsOfFourLines | supfile.go:451-470 | four newline-terminated lines give the hosts of each line, concatenated in order |
| Inventory.ExampleLines | supfile.go:462-468 | a host line gives its host, a comment line and a blank line give none, and an indented host line gives the trimmed host |
| Inventory.InventoryExample | supfile.go:451-470 | a host, a comment, a blank line and an indented host give the two hosts, trimmed, in order |
| Text.LastIndexOf | supfile.go:95-95 | the position of the last occurrence, or none iff the character does not occur |
| Text.IndexOf | supfile.go:454-454 | the position of the first occurrence, or none iff the character does not occur |
| Text.TrimSpace | supfile.go:462-462 | the result is the input with only white space cut away at both ends, with none left at either end; it is empty iff the input is all white space |
| Text.TrimSpaceOf | supfile.go:462-462 | trimming white space around text that has none at its ends gives that text |
| Text.FormatNatRoundTrip | supfile.go:130-130 | the decimal rendering of a port number reads back as that number |

## Left out

- YAML decoding (`yaml.Unmarshal`, `yaml.MapSlice`, `%v` rendering of keys and values) is a foreign library. Its output is taken as the ordered list of (key, value) items. A later duplicate key is taken to replace an earlier one in the map.
- Collections.Decode: keys are taken to be strings. Go reads each name with the type assertion `item.Key.(string)` (supfile.go lines 157, 209 and 240), so a mapping key YAML decodes as something else (`1:`, `true:`, `null:`) makes `Networks`, `Commands` or `Targets` panic; the model's items are typed `(string, T)` and have no such path. Environment keys are rendered with `%v` and do not panic.
- `net.SplitHostPort` on bracketed (IPv6) addresses is an injected function. Only the unbracketed branch is written out.
- `user.Current`, `ResolvePath`, the global `extractedHostSSHConfig`, `os.Getwd`, `bash -c`, `/bin/sh -c`, `os.Environ` and stderr are parameters or are left out. The inventory command is one function from the command and the network's `KEY=VALUE` list to its output or an error.
- Writing the deprecation warning to stderr is replaced by returning it.
- Shared references are not modelled: `EnvList` holds `*EnvVar` and `Network.Hosts` holds `*Host`, and the model uses values. A nil slice is modelled as the empty sequence.
- `Networks.Set` on a Supfile without any `networks:` section writes to a nil map and panics in Go. The model stores the entry.
- Env.ResolveValues: on a shell failure, Go has already replaced the values of the entries before it in place; the model returns only the error.
- Env.ResolveValues: Go calls `os.Getwd` again before each entry, so a later call could fail after earlier values were already replaced; the model asks for the working directory once, before the first entry, and runs every script in that one directory.
- Inventory.ParseInventory: a read error other than `io.EOF` cannot happen on an in-memory buffer and is not modelled. A failing command's error is returned as it comes from the injected function.
- Strings are sequences of Unicode scalar values. Invalid UTF-8 and byte-level slicing are not modelled.
- The error messages are modelled by kind and named version (`Supfile.SupfileError`). Their full text appears only as definitions without properties.
- Supfile.Rejection: when the version is below 0.3, which command field is reported depends on Go's map iteration order. The contract states that some command exhibits it, not which one.
- Three places where sup's behaviour may surprise a reader; the model follows the code:
  - after migration `run_once` stays set next to `once`;
  - the warning is issued once for the whole file, not once per command;
  - at 0.4 and 0.5 `run_once` is neither migrated nor refused.
