# Link rotation of the WhatsApp link bot

This project models the part of `index.js` that decides which link the bot posts and
when. The bot keeps a list of links in `link.txt`, one per line, and a cursor in
`linkIndex.json`. When the WhatsApp client becomes ready, the bot looks up the configured
group among the client's chats, once. Then, right away and once a day with the group
found there, it does three things:

- it takes the next link in round-robin order;
- it writes the advanced cursor back;
- it sends `📌 Today's link: <link>` to the group.

Files:

- `link_file.dfy` (module `LinkFile`) models `getLinks`. It splits the text on
  `'\n'`, trims each line with the ECMAScript `String.prototype.trim` white-space set
  and drops empty lines; an unreadable file gives `[]`. It proves that the parse is
  exact: membership, order, concatenation, a round trip through a one-per-line file,
  and idempotence.
- `rotation.dfy` (module `Rotation`) models the cursor record that `getLastIndex`
  reads and `saveLastIndex` writes, the JavaScript remainder `%`, and one call of
  `getNextLink` as a value. It proves round-robin order, fairness, resumption after a
  restart, the empty-list no-op, bounds on the stored cursor, and recovery from a
  negative cursor.
- `dispatch.dfy` (module `Dispatch`) models the `ready` handler and the daily cron
  callback. Their state is held by `class Bot`:
  - the contents of `link.txt`, which `index.js` only reads;
  - the cursor record `linkIndex.json`, which `saveLastIndex` overwrites in place;
  - an ordered log of outward effects (cursor writes and send attempts).

  `Bot.GetNextLink`, `Bot.OnReady` and `Bot.DailyTick` are proved against the
  functions of `Rotation`. So is the invariant that every send attempt directly
  follows a cursor write. `ThreeLinkScenario` drives one `Bot` through four
  deliveries of a three-line file, one of which fails, and states their outcomes.
- `modular.dfy` (module `Modular`) holds the arithmetic lemmas about `%`, and
  `wrappers.dfy` holds `Option`.

The outside world enters the model only as inputs:

- the file system is the `linkFile`/`indexFile` fields;
- `client.getChats()` is the `chats` parameter;
- the group name from the environment is the `groupName` parameter;
- the outcome of `client.sendMessage` is the `delivered` parameter.

Two designs that a rotation bot like this one could follow are not what `index.js`
does, and the model follows the code:

- In a design where the stored cursor grows without bound, the modulus is applied on
  each read. `index.js` instead stores `(c % n) + 1`. So from a cursor `c0 >= 0` (an
  absent record included), after one or more calls on the same list, the stored value
  lies in `[1, n]`; see `Rotation.CursorBounded`. A negative stored cursor is carried
  over negative until it recovers; see `Rotation.NegativeCursorRecovers`.
- A dispatcher could check the connection, bound the send with a timeout, or accept a
  direct chat identifier. `index.js` does none of these, and the model does not claim
  them.

## Model

| member | source | states |
|---|---|---|
| LinkFile.SplitLines | index.js:122 | `split('\n')`: always at least one piece, no piece contains `'\n'`, and the pieces joined with `'\n'` give back the text |
| LinkFile.SplitUnique | index.js:122 | the split is the only way to cut the text into `'\n'`-free pieces that join back to it |
| LinkFile.SplitAppend | index.js:122 | splitting `a + "\n" + b` gives the pieces of `a` followed by the pieces of `b` |
| LinkFile.Trim | index.js:123 | `line.trim()`: the result starts and ends with a non-white-space character (or is empty), is no longer than the line, and contains no line break when the line has none |
| LinkFile.TrimPadded | index.js:123 | trimming removes exactly the surrounding white space: `Trim(w1 + t + w2) == t` when `w1` and `w2` are white space and `t` is trimmed |
| LinkFile.TrimAll | index.js:123 | `map(line => line.trim())`: same length, and element `i` is line `i` trimmed |
| LinkFile.DropEmpty | index.js:124 | `filter(line => line.length > 0)`: no longer than the input and every kept element non-empty |
| LinkFile.DropEmptyMembers | index.js:124 | the filter keeps exactly the non-empty elements: `t` is kept iff `t` is non-empty and in the input |
| LinkFile.ParseLinks | index.js:121-124 | every link the pipeline returns is non-empty, trimmed and free of `'\n'` (a carriage return or U+2028 inside a line stays in the link) |
| LinkFile.ParseLinksMembers | index.js:121-124 | `t` is returned iff `t` is non-empty and some line of the text trims to `t` |
| LinkFile.ParseOneLine | index.js:121-124 | a text of one line gives that line trimmed, or nothing when it trims to empty |
| LinkFile.ParseAppend | index.js:121-124 | the parse keeps the original order: parsing `a + "\n" + b` gives the links of `a` followed by the links of `b` |
| LinkFile.ParseJoin | index.js:121-124 | writing well-formed links one per line and reading the file back gives exactly the same list |
| LinkFile.ParseIdempotent | index.js:121-124 | re-writing the parsed links one per line and parsing again changes nothing |
| LinkFile.GetLinks | index.js:119-130 | an unreadable file gives `[]`; otherwise every returned link is well-formed |
| Rotation.GetLastIndex | index.js:132-142 | a non-zero result comes only from a record that stores exactly that value; a missing file, an unparsable record, or an absent or falsy `lastIndex` all give `0` |
| Rotation.Saved | index.js:144-146 | the record `saveLastIndex(i)` writes reads back through `getLastIndex` as `i`, `0` included |
| Rotation.JsRem | index.js:153 | JavaScript `%` for a positive divisor: strictly between `-n` and `n`, the mathematical remainder for a non-negative dividend, and never positive for a negative one |
| Rotation.JsRemCongruent | index.js:153 | the JavaScript remainder differs from the dividend by a multiple of the divisor |
| Rotation.NextLinkStep | index.js:148-157 | the list is empty iff nothing is selected. Otherwise the slot is congruent to the cursor modulo `n`, inside `(-n, n)`, and not positive for a negative cursor, which fixes it as JavaScript's `%`. A link is returned exactly when the slot is non-negative, and it is the link at that slot. For a cursor `c >= 0` the call returns `links[c mod n]` and stores a value in `[1, n]` |
| Rotation.After | index.js:155 | after a call that selected a slot, the record reads back as that slot plus one; after a call on an empty list it is unchanged |
| Rotation.Step | index.js:148-154 | one call reading the cursor from the record: nothing exactly when the list is empty, and from a cursor `c >= 0` the link at `c mod n` |
| Rotation.RoundRobin | index.js:152-155 | with the list unchanged, the `i`-th of `k` calls from cursor `c0 >= 0` returns `links[(c0 + i) mod n]`, and afterwards the record holds `(c0 + k - 1) mod n + 1` |
| Rotation.CursorBounded | index.js:153-155 | from a cursor `c0 >= 0` (an absent record included), after one or more calls on the same non-empty list, the stored cursor lies in `[1, n]` |
| Rotation.Fair | index.js:153-155 | in any `n` consecutive calls, every call returns a link and every slot is chosen exactly once |
| Rotation.ResumeAfterRestart | index.js:132-155 | the rotation depends only on the persisted record: `j + k` calls are `j` calls followed by `k` calls that start from the record the first `j` left |
| Rotation.ShrunkListStillPicks | index.js:153-154 | if the list changes between calls, from an empty list or to one shorter than the stored cursor, the next call still returns an element of the current list |
| Rotation.EmptyListIdle | index.js:149-150 | on an empty list every call returns `null` and the cursor record is never written |
| Rotation.NegativeCursorRecovers | index.js:152-155 | a negative stored cursor, which `%` maps to a missing slot, climbs back to a usable cursor within `n` calls |
| Rotation.ThreeLinks | index.js:148-157 | three links from a fresh record: the calls return A, B, C, A and the record holds 3, then 1 |
| Dispatch.FindGroup | index.js:210 | `chats.find(...)`: none exactly when no chat is a group with the configured name; otherwise the first such chat |
| Dispatch.Message | index.js:222 | the text sent is the prefix `📌 Today's link: ` followed by exactly the link |
| Dispatch.MessageCarriesLink | index.js:222 | the message text determines its link: the link is recovered from `📌 Today's link: <link>`, and different links give different texts |
| Dispatch.DeliveryOrdered | index.js:220-241 | a delivery attempt sends nothing when there is no link. Otherwise it writes the cursor and then sends the formatted link to the group, in that order, whatever the send outcome, and it keeps the log ordered |
| Dispatch.Bot.SaveLastIndex | index.js:144-146 | overwrites the cursor record with the given value and logs the write |
| Dispatch.Bot.GetNextLink | index.js:148-157 | returns the link `NextLinkStep` selects from the files as they were and leaves the record `NextLinkStep` prescribes. It writes once, or not at all for an empty list, and leaves the link file alone |
| Dispatch.Bot.OnReady | index.js:205-224 | an unknown group stops the handler with nothing written or sent. Otherwise the rotation advances, and the link, if any, is sent to the first matching group after the cursor write. A failed send makes the handler reject |
| Dispatch.Bot.DailyTick | index.js:232-244 | one cron run: no link means no send. Otherwise the cursor is written and then the link is sent; a failed send is caught, and the rotation has still moved on |
| Dispatch.ThreeLinkScenario | index.js:232-244 | three links one per line and no record: four ticks, the second failing, report `a` sent, `b` failed, `c` sent, `a` sent, and leave the record at 1 |
| Dispatch.MiddleTicks | index.js:232-244 | from record 1, a failed tick reports `b` failed, the next tick sends `c`, and the record ends at 3 |
| Dispatch.FourthTick | index.js:232-244 | from record 3 the rotation wraps: the tick sends `a` and stores 1 |

## Left out

- Lines 1-103 of `index.js` are a commented-out earlier version of the bot. They are not code.
- Client construction, Puppeteer options, QR rendering and the PNG/PDF export (index.js:160-202) are foreign library calls and file output.
- `client.on('error')` and `client.initialize()` (index.js:250-255) are event plumbing.
- The registration of the cron jobs, their expressions and the `Asia/Kolkata` time zone (index.js:227-248) are a timer library and the wall clock. The model has one callback run, `Bot.DailyTick`. It does not say when or how often ticks happen.
  - As written, the file's braces do not close as indented. The `ready` handler opened at line 205 is never closed, and the `0 9 * * *` callback registers the `29 3 * * *` job on every firing. The model follows each handler body and does not model how often the jobs are registered.
- `Bot.OnReady` ends at the send. Whether a failed immediate send also skips the schedule registration is reported only through the `failed` flag of its outcome.
- `process.env.WHATSAPP_GROUP_NAME` (index.js:208) becomes the `groupName` parameter. An unset variable (`undefined`, which no chat name equals) is not distinguished from a name that no chat has.
- The JSON text of `linkIndex.json` (index.js:135, 145) is not modelled. The record is `NoFile`, `Unreadable` or `Stored(lastIndex)`, with `lastIndex` an optional integer.
- Rotation.GetLastIndex: a truthy `lastIndex` that is not an integer (a string, a fraction, `true`) is not modelled. From an integer record `saveLastIndex` writes only integers. A hand-edited fractional `lastIndex` stays fractional on every later call, selects `undefined`, and stops all sends for good; this is not modelled.
- Rotation.JsRem: the cursor is an unbounded integer, not an IEEE double. Values beyond 2^53 and `-0` are not modelled.
- LinkFile.Trim: strings are sequences of Unicode scalar values, not UTF-16 code units. The white-space set is the one ECMAScript `trim` uses (`WhiteSpace` and `LineTerminator`, including U+FEFF).
- Dispatch.Bot.SaveLastIndex: a write that throws is not modelled. In `index.js` it would abort `getNextLink`.
- Logging to the console is not modelled.
