# Hello counter of the e-paper conference badge, in Dafny

The badge runs a small web server. Visitors say hello with a POST request,
and a shared state holds the hello count. The state also has a
deduplication rule, `inc_hi_count`: it remembers when each source address
was last counted and counts an address again only after a window has
passed. No route of the web server calls that rule, however: POST "/hi"
adds one to the count on every request. The count is persisted as decimal
text in a file that is replaced atomically, and a status page shows the
count beside host facts such as the uptime.

This project models three pure pieces of that program and proves their
properties:

- **The counter state** (`app.dfy`, module `App`, from `src/app.rs`): the
  state record, the deduplication rule of `inc_hi_count`, loading the count
  from file text, and the temporary path and text of `save_hi_count`. Time is
  a `nat` clock reading in nanoseconds; the file system is a map from paths
  to file contents; sequences of hellos are folded with `Run`.
- **The uptime display** (`sys.dfy`, module `Sys`, from `src/system.rs`):
  the days/hours/minutes split and the text built from the non-zero parts,
  with an independent reader of that text (`ParseDisplay`) as its partner.
- **Request dispatch** (`webserver.dfy`, module `WebServer`, from
  `src/webserver.rs`): `handle_request` as a function from state and request
  to response and next state, with template rendering a function parameter
  that may fail. As written, POST "/hi" adds one to the count directly and
  never consults the deduplication rule; `WebServer.PostBypassesDedup`
  states exactly that.

Supporting modules: `Wrappers` (Option and Result), `Decimal` (unsigned
`to_string`, `from_str` and `str::trim`), `Words` (joining with a separator
and splitting it back), `Net` (IP addresses and dotted-decimal display) and
`Paths` (a path as its `std::path` components, with `file_name` and
`with_file_name`).

Every request the server does not route gets status 404 and the body
"Not found\n", with a trailing newline.

## Model

| member | source | states |
|---|---|---|
| Decimal.NatToString | src/app.rs:112 | the count is written as a non-empty digit string with no leading zero whose decimal value is the count |
| Decimal.ParseUsize | src/app.rs:99 | unsigned parsing accepts one optional leading '+' and then requires a non-empty run of digits only |
| Decimal.Trim | src/app.rs:99 | trimming yields a slice of the text with only whitespace removed on either side and no whitespace left at either end |
| Decimal.ParseNatToString | src/app.rs:99-112 | parsing the decimal text of any count gives that count back |
| Words.SplitJoin | src/system.rs:36 | splitting fragments joined by a separator at that separator gives the fragments back when none contains it |
| Net.Ipv4ToString | src/webserver.rs:38 | an IPv4 address displays as its four octets in decimal, separated by dots, and splits back into exactly those four |
| Paths.FileName | src/app.rs:103-104 | a path has a file name exactly when its last component is a normal name, and then it is that name |
| Paths.WithFileName | src/app.rs:111 | replacing the file name keeps the parent directory and makes the new name the file name |
| Sys.New | src/system.rs:10-12 | the uptime stores the given seconds unchanged |
| Sys.Breakdown | src/system.rs:17-20 | hours are below 24, minutes below 60, and days, hours and minutes account for the uptime to within the dropped seconds (less than 60) |
| Sys.Display | src/system.rs:22-36 | the display is never empty, and ends in " secs" exactly when the uptime is under a minute, being then the seconds followed by " secs" |
| Sys.FragmentsShape | src/system.rs:22-34 | there is always at least one fragment; under a minute it is the seconds form alone; otherwise the last fragment ends in a d, h or m unit |
| Sys.ParseDisplayRoundTrip | src/system.rs:17-36 | a reader accepting only "<n> secs" or non-zero "<n>d", "<n>h", "<n>m" fragments in that order, single-spaced, reads every display back as the seconds (under a minute) or the exact days, hours and minutes |
| Sys.SplitDisplay | src/system.rs:22-36 | from a minute on, the display splits at its spaces into exactly the non-zero day, hour and minute fragments, in that order |
| Sys.DisplayInjective | src/system.rs:22-36 | two uptimes with the same display show the same seconds, or the same days, hours and minutes |
| App.HiCount | src/app.rs:93-95 | the accessor gives the stored count unchanged |
| App.Accepts | src/app.rs:81-85 | the accept decision holds exactly when the hello changes the state, exactly when it raises the count by one, and then it records now for the sender |
| App.Elapsed | src/app.rs:81 | the age of a hello is the clock difference, and zero if the recorded instant is later than now |
| App.IncHiCountImpl | src/app.rs:88-91 | an accepted hello counts one more and records now for its address; other addresses and the configuration are untouched |
| App.IncHiCount | src/app.rs:78-86 | a hello from a new address, or one whose age is strictly greater than the window, is counted and recorded at now; an age at most the window (equal included) leaves the state unchanged |
| App.IncHiCountFrame | src/app.rs:78-91 | the count never drops and grows by at most one, by one exactly when the hello is accepted; only the sender's entry can change; window and host facts never change |
| App.IncHiCountKeepsSeenCounted | src/app.rs:88-91 | the number of remembered addresses never exceeds the count across a hello |
| App.IncHiCountKeepsClockAfter | src/app.rs:79-89 | with a monotonic clock, no recorded instant is ever ahead of a later reading |
| App.RunBounds | src/app.rs:78-91 | over any sequence of hellos the count grows by at most their number and never drops, and the configuration is unchanged |
| App.RunKeepsSeenCounted | src/app.rs:78-91 | the remembered addresses never outnumber the count over any sequence of hellos |
| App.RunDistinctCountsAll | src/app.rs:81-83 | hellos from N distinct, never-seen addresses increase the count by exactly N, whatever their order |
| App.TwoHellos | src/app.rs:81-85 | two hellos from a new address count once when the second is at most the window after the first, twice otherwise |
| App.TestState | src/app.rs:156-166 | the tests' state has count 0, no remembered address and a 100 ms window |
| App.IncHelloDedup | src/app.rs:168-178 | three hellos from one address within 100 ms leave the count at 1 |
| App.IncHelloExpiration | src/app.rs:180-192 | two hellos, a 101 ms pause, and two more hellos from one address leave the count at 2 |
| App.LoadHiCount | src/app.rs:97-100 | a read error is passed on; read text is trimmed and parsed, and text that does not parse gives 0, never an error |
| App.Load | src/app.rs:59-76 | a missing file starts the count at 0, other read errors abort the load, and the loaded state remembers no address |
| App.TmpPath | src/app.rs:103-111 | the temporary path exists exactly when the path has a file name; it is that name plus ".tmp" in the same directory, and differs from the path |
| App.SaveHiCount | src/app.rs:102-112 | saving fails, before writing, exactly when the path has no file name; otherwise it writes the count's decimal text (digits only, no leading zero) to the temporary sibling, and that text loads back as the count |
| App.ReadToString | src/app.rs:98 | reading gives the contents of an existing file and a NotFound error for a missing one |
| App.Committed | src/app.rs:114 | after the rename the destination holds the written text, the temporary file is gone, and every other file is unchanged |
| App.SaveLoadRoundTrip | src/app.rs:97-114 | loading the file after a completed save gives back the saved count |
| App.SaveReplacesAtomically | src/app.rs:111-114 | after the write and before the rename the destination holds its old contents; after the rename it holds the whole new text and the temporary file is gone |
| WebServer.IpString | src/webserver.rs:36-39 | a missing interface address displays as "?.?.?.?", a present one in dotted decimal |
| WebServer.View | src/webserver.rs:36-48 | the page is filled with the current count, the displayed interface address, and the state's OS name, uname, memory and uptime unchanged |
| WebServer.HandleRequest | src/webserver.rs:24-76 | GET or HEAD of "/" or "/hi" render without changing the state, falling back to "Internal Server Error\n"; POST "/hi" adds exactly one to the count and answers with the new count; anything else is 404 "Not found\n" with the state unchanged |
| WebServer.Greeting | src/webserver.rs:64 | the POST body is "Hello!, your number is ", then exactly the plain decimal digits of the count (which parse back to it), then a newline |
| WebServer.GreetingNamesCount | src/webserver.rs:57-65 | the number in the answer to a POST "/hi" reads back as the count the state holds after the request |
| WebServer.PostBypassesDedup | src/webserver.rs:57-62 | a POST "/hi" is counted even when the deduplication rule would reject the same visitor's hello, and it records no visitor |
| WebServer.NearMissesNotFound | src/webserver.rs:69-73 | POST "/", GET "/hi/" and PUT "/hi" are all 404 with the state unchanged |
| WebServer.ServeCountsPosts | src/webserver.rs:28-75 | over any sequence of requests the state after them is the state before with the count raised by exactly the number of POST "/hi" among them; every other field is unchanged |

## Left out

- Concurrency: the read/write lock around the state, lock poisoning and the `expect` on it, and hyper's futures and body collection. Each request and each hello is one atomic step on the state.
- `State::new`, `State::refresh` and `get_interface_ip`: they sample the operating system through libraries that are not part of this model. Host facts enter the model as a given `App.Host` value.
- The periodic refresh-and-save loop is outside `app.rs`, `system.rs` and `webserver.rs` and is not modelled.
- `src/main.rs`: the e-paper display, fonts, hardware access, shelling out to `uptime` and `uname`, and the floating-point CPU temperature.
- File contents are text. Bytes that are not valid UTF-8 make `read_to_string` fail with an InvalidData error, and `load` then aborts instead of starting at 0; the model's `read` argument of App.Load is that error in this case.
- File-system effects: reading, writing and renaming are a map from paths to contents; failures of the write or the rename, which the code passes on with `?`, are not modelled, nor is the operating system's atomicity of rename.
- Turning a path string into `std::path` components is not modelled; paths are given as components.
- Template contents: the `hi.txt` template is outside this model, so rendering is a function parameter that either yields text or fails. HTTP status of a failed render stays 200, as in the code. Transport behaviour such as dropping the body of a HEAD response is not modelled.
- App.IncHiCount: the count is an unbounded `nat`; the overflow of the machine-word counter on `+= 1` is not modelled, nor is it for the POST route in WebServer.HandleRequest.
- Decimal.ParseUsize: values are unbounded, so text larger than the machine word, which the code parses as an error and therefore as 0, here parses to its value.
- App.Elapsed: subtracting a later instant from an earlier one saturates at zero, which is what the standard library does today; older versions panicked. With a monotonic clock (App.IncHiCountKeepsClockAfter) the case does not arise.
- Instants and durations are natural numbers of nanoseconds; the real clock is replaced by explicit `now` arguments.
- The log lines printed by `load` and `save_hi_count`.
