# Love Letters: letter store, accounts and the send form, in Dafny

Love Letters is a two-account private messaging web app. All of its state
lives in the browser:

- one JSON array of letters in local storage;
- one cookie holding the id of the logged-in account.

This project models the logic that sits under the pages:

- the **letter store** (`lib/storage.ts`): append a letter, list an inbox,
  list a sent view, mark a letter read;
- the **account directory and session** (`lib/auth.ts` over the `USERS`
  constant of `lib/types.ts`): log in, log out, resolve the current account,
  find "the other" account;
- the **send handler of the compose form** (`app/compose/page.tsx`): which
  drafts may be sent, which message a rejected one gets, and how an accepted
  draft becomes a letter.

How the model is built:

- Everything is a value, and every operation is a pure function.
- The store is `Storage.Store = seq<Letter>` in insertion order. Reading
  storage means using that value. Saving means returning the new value.
- The session cookie is `Auth.Session = Option<string>`.
- The id and timestamp that `sendLetter` takes from the clock and a random
  suffix are parameters. Ids are not assumed unique, so `MarkAsRead` is
  specified for duplicate ids: only the first match changes.
- The auth functions take the account directory as a parameter. The app
  always passes `Types.Users`, the two shipped accounts. The lemmas named
  `Shipped…` state what happens with that directory.

Modules:

| module | file | models |
|---|---|---|
| `Wrappers` | wrappers.dfy | `Option`, for the `null`/`undefined` results of `find` and the auth functions |
| `Seqs` | seqs.dfy | `Array.prototype.find` / `findIndex`: the first match wins |
| `Types` | types.dfy | `User`, `Letter` (exactly its seven fields), `USERS` |
| `NewestFirst` | newest_first.dfy | the stable `b.timestamp - a.timestamp` sort |
| `Storage` | storage.dfy | `getInbox`, `getSentLetters`, `sendLetter`, `markAsRead` |
| `Auth` | auth.dfy | `login`, `logout`, `getCurrentUser`, `getOtherUser` |
| `Text` | text.dfy | `String.prototype.trim` and `replace(/<[^>]*>/g, '')` |
| `Compose` | compose.dfy | the validation and draft construction of `handleSend` |

How the model resolves some points:

- **Sort order.** Both views sort with the comparator
  `b.timestamp - a.timestamp`, and `Array.prototype.sort` is stable from
  ECMAScript 2019 on. So letters with equal timestamps keep their stored
  order. `NewestFirst.AtTime(s, t)`, the letters of `s` stamped `t` in
  order, states this stability. `SortedStableUnique` shows that sortedness
  plus stability pin the result down completely.
- **`getOtherUser`.** It returns the first account whose id differs from
  the given one, whatever the size of the directory.
- **Empty session.** `getCurrentUser` tests the cookie value for
  truthiness, so an empty-string cookie counts as no session.
  `Auth.LoginThenCurrentUser` therefore needs account ids that are unique
  and non-empty. The shipped directory has both (`Types.ShippedDirectory`).
- **Empty-content literals.** The content check compares against three
  literal markups (`<p></p>`, `<br>`, `<div><br></div>`). Each of them is
  only tags, so the tag-stripping test already catches them
  (`Compose.EmptyContentIsBlankText`).

## Model

| member | source | states |
|---|---|---|
| Seqs.FindIndex | lib/storage.ts:45 | the result is none exactly when no element satisfies the predicate; otherwise it is an index whose element satisfies it and before which none does |
| Seqs.Find | lib/auth.ts:7-9 | the result is none exactly when no element matches; otherwise it is the element at the first matching position |
| Types.ShippedDirectory | lib/types.ts:18-31 | the shipped directory has exactly two accounts, ids "user1" and "user2", with distinct ids, distinct usernames and non-empty ids |
| NewestFirst.SortNewestFirst | lib/storage.ts:21 | the result is non-increasing by timestamp, is a permutation of the input, and lists each timestamp's letters in input order (stable) |
| NewestFirst.SortedStableUnique | lib/storage.ts:21 | two sequences that are both newest-first and agree on the order of every timestamp's letters are equal, so the stable newest-first order is unique |
| NewestFirst.IncreasingSortsToReverse | lib/storage.ts:21 | letters stored with strictly increasing timestamps sort to exactly the reverse of stored order |
| Storage.Select | lib/storage.ts:20 | every selected letter has the requested party, and each letter occurs as often as it is stored if it has that party, otherwise not at all |
| Storage.SelectAppend | lib/storage.ts:20 | selection keeps stored order: selecting from two stretches of the store one after the other equals selecting from the whole |
| Storage.SelectAtTime | lib/storage.ts:20-21 | the letters of one timestamp in a selection are, in order, the selection from that timestamp's stored letters |
| Storage.SelectIncreasing | lib/storage.ts:20 | a selection from a store stamped in strictly increasing order is itself stamped in strictly increasing order |
| Storage.GetInbox | lib/storage.ts:18-22 | every listed letter is addressed to the user; the list is a permutation of the stored letters addressed to the user; it is newest first; equal timestamps keep stored order |
| Storage.GetSentLetters | lib/storage.ts:24-28 | the same four properties with the sender in place of the recipient |
| Storage.InboxIsTheStableOrder | lib/storage.ts:18-22 | any newest-first, stable arrangement of the user's addressed letters is the inbox |
| Storage.SentIsTheStableOrder | lib/storage.ts:24-28 | any newest-first, stable arrangement of the user's sent letters is the sent view |
| Storage.InboxOfIncreasingIsReversed | lib/storage.ts:18-22 | when every stored letter was sent at a strictly later instant than the one before, each inbox is exactly the reverse of the stored order of the letters addressed to that user, whatever else the store holds |
| Storage.SendLetter | lib/storage.ts:30-41 | the store grows by exactly one record at the end; earlier records are untouched; the new record carries the draft's sender, recipient, subject and content, the supplied id and timestamp, and is unread |
| Storage.InboxAfterAppend | lib/storage.ts:18-41 | appending a letter adds it to its recipient's inbox and to no other inbox |
| Storage.SentAfterAppend | lib/storage.ts:24-41 | appending a letter adds it to its sender's sent view and to no other |
| Storage.SentLetterPlacement | lib/storage.ts:18-41 | a sent letter appears in the sender's sent view and the recipient's inbox; between distinct accounts it is in neither the sender's inbox nor the recipient's sent view; those two views grow by exactly that record, and every other user's inbox and sent view are the identical sequences they were before |
| Storage.OtherViewUnchanged | lib/storage.ts:20 | appending a letter whose recipient (or sender) is not `w` leaves `w`'s selection exactly as it was |
| Storage.MarkAsRead | lib/storage.ts:43-51 | the length never changes; with no letter of that id the store is unchanged; otherwise the first letter with the id becomes read and every other letter is unchanged |
| Storage.MarkAsReadOnlySetsRead | lib/storage.ts:43-51 | marking changes no field other than the read flag of any letter and never clears a read flag |
| Storage.MarkAsReadIdempotent | lib/storage.ts:43-51 | marking the same id twice has the same effect as marking it once |
| Storage.SendThenReadScenario | lib/storage.ts:18-51 | after one letter is sent to an empty store, the recipient's inbox holds exactly that letter, unread; after its id is marked it is the same letter, read |
| Auth.Login | lib/auth.ts:6-17 | a login succeeds exactly when some account has both the username and the password; it returns the first such account and stores its id in the session; a failed login returns none and leaves the session unchanged |
| Auth.LoginFindsTheAccount | lib/auth.ts:6-10 | with distinct usernames, an account's own credentials log in as exactly that account |
| Auth.Logout | lib/auth.ts:19-21 | the session is empty afterwards |
| Auth.LogoutEndsSession | lib/auth.ts:19-28 | after logging out there is no current user, whatever the directory |
| Auth.GetCurrentUser | lib/auth.ts:23-28 | no current user without a session or with an empty one; otherwise there is a user exactly when some account has the session's id, and it is the first account with that id |
| Auth.LoginThenCurrentUser | lib/auth.ts:6-28 | with unique non-empty ids, the session left by a successful login resolves to the account that logged in |
| Auth.GetOtherUser | lib/auth.ts:30-32 | the result, when present, is an account of the directory whose id differs from the given one, the first such; it is none exactly when every account has the given id |
| Auth.ShippedOtherUser | lib/auth.ts:30-32 | with the shipped accounts, each account's other user is the other account, and applying the lookup twice returns the starting account |
| Auth.ShippedLogin | lib/auth.ts:6-17 | the shipped credentials log in as their accounts and set the session to their ids; a wrong password fails and keeps the session |
| Text.Trim | app/compose/page.tsx:29 | `.trim()`; it carries no contract of its own, and is characterised by `TrimmedEmptyIffBlank` and `TrimKeepsMiddle` |
| Text.TrimmedEmptyIffBlank | app/compose/page.tsx:29 | a string trims to nothing exactly when every character of it is whitespace |
| Text.TrimKeepsMiddle | app/compose/page.tsx:29 | trimming yields a contiguous part of the string that neither starts nor ends with whitespace, and everything removed before and after it is whitespace |
| Text.TagLength | app/compose/page.tsx:38 | a non-zero result is the length of a run that opens with '<' and ends at the first '>' after it; zero means no such run starts at the first character |
| Text.StripTags | app/compose/page.tsx:38 | `content.replace(/<[^>]*>/g, '')`; it carries no contract of its own, and its behaviour is stated by `StripTagsSound`, `LeadingTagStrips`, `PlainPrefixKept` and `NoCloseKept` |
| Text.StripTagsSound | app/compose/page.tsx:38 | stripping adds no character (the result's characters are a sub-multiset of the input's), leaves no '<' that has a '>' after it, and leaves a string without '<' unchanged |
| Text.LeadingTagStrips | app/compose/page.tsx:38 | a leading run of '<', non-'>' characters and '>' is removed whole, and stripping continues on what follows |
| Text.PlainPrefixKept | app/compose/page.tsx:38 | text before the first '<' is kept exactly, in front of the stripped remainder |
| Text.NoCloseKept | app/compose/page.tsx:38 | a string with no '>' is kept whole, an unclosed '<' included |
| Compose.IsEmptyContent | app/compose/page.tsx:34-38 | the four-way `isEmpty` test (blank after trimming, one of three literal markups, or blank after tag stripping); it carries no contract of its own, and `EmptyContentIsBlankText` proves it equals "the tag-stripped text is blank" |
| Compose.EmptyEditorMarkupHasNoText | app/compose/page.tsx:35-38 | each of the three literal markups strips to the empty string |
| Compose.EmptyContentIsBlankText | app/compose/page.tsx:34-38 | the full emptiness test, literals included, holds exactly when the content's text after tag stripping is all whitespace |
| Compose.Validate | app/compose/page.tsx:29-43 | a blank subject is rejected with "Please enter a subject", even when the content is also empty; otherwise content with no text outside tags is rejected with "Please write your letter"; otherwise the draft passes |
| Compose.Deliver | app/compose/page.tsx:50-61 | without another account the result is "Could not find recipient" and the store is unchanged; otherwise exactly one letter is appended, from the sender to the first account of the directory whose id differs from the sender's (the account `getOtherUser` returns), with subject and content exactly as typed |
| Compose.HandleSend | app/compose/page.tsx:25-61 | a blank subject or empty content leaves the store unchanged and shows its message; a valid draft with nobody logged in does nothing and shows no message; a valid draft from a logged-in user is delivered |
| Compose.ShippedSendReachesOther | app/compose/page.tsx:50-61 | with the shipped accounts, a valid letter from either account goes to the other one |

## Left out

- Local-storage and JSON I/O (`lib/storage.ts:5-16`), including the guard
  that reads an empty list and skips the write when there is no window. A
  persist-then-reload round trip is not stated, because the store is a
  value.
- Id and time generation (`Date.now()`, `Math.random().toString(36)`).
  These are parameters, and nothing assumes the ids are unique.
- The cookie's 7-day expiry and the `js-cookie` library. A session is
  either present or absent.
- Timestamps are unbounded integers. JavaScript numbers are doubles, but
  `Date.now()` only yields integers well inside the exact range, so the
  comparator's NaN and rounding cases are not modelled.
- The React pages, routing, hooks and effects; the `sending` flag; clearing
  the form; the 500 ms redirect after sending.
- The `try`/`catch` around sending in `handleSend` and its "Failed to send
  letter" message. In the model `sendLetter` cannot fail, because storage
  failures are not modelled.
- The rich-text editor, theming, navigation, date formatting and the
  sender/recipient name lookups in the inbox and sent pages.
- Races between browser tabs doing read-modify-write on the whole array,
  because they are about concurrency.
- The exact whitespace set of `trim` across engines: the model's set is ECMAScript's WhiteSpace and
  LineTerminator characters, with category Zs listed as of current
  Unicode. Engines built on other Unicode versions may differ.
