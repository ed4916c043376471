# Member roster: a Dafny model

This project models the roster core of a small Sinatra application that
keeps a list of member names in one text file, `members.txt`. The model
has three parts:

- **The member file.** It is `Option<string>`: `None` while the file does
  not exist, otherwise its whole text. `names` splits the text at newlines
  the way Ruby's `String#split("\n")` does. That split drops the empty
  fields at the end and keeps leading and inner ones. `store` rewrites the
  file with the names joined by `"\n"`. `add_member` appends the bare name
  with no delimiter.
- **Member and MemberValidator.** These are classes with the source's
  mutable fields. `Member` has a `name` that is also its `id`. The
  validator's `messages` list is never reset: each `valid?` call appends
  the message of the rule that fires, if any. The empty-name
  rule is checked first and short-circuits the duplicate rule.
- **The routes.** POST, PUT and DELETE on `/members` and the `before` flash
  filter form a state machine over the file and `session[:message]`. It is
  stated as pure functions in `routes.dfy`. It is also implemented in
  `app.dfy` by an `App` class whose methods build `Member` and
  `MemberValidator` objects as the source does. Each route method's
  postcondition equates its effect with the pure function.

Files: `wrappers.dfy` (Option), `lines.dfy` (split and join),
`roster.dfy` (index, element assignment, reject, count), `store.dfy` (the
file operations), `member.dfy`, `member_validator.dfy`, `routes.dfy`,
`app.dfy`.

What the proofs show, in the source's terms:

- `names` after `store(lines)` is `lines` whenever no line holds a newline
  and the last line is non-empty. For lines without newlines in general,
  only the empty lines at the end are lost.
- `store(names)` rewrites the file byte for byte exactly when the text does
  not end in a newline. After one rewrite, further load-and-store cycles
  change nothing.
- `add_member` adds a new last entry when the file is absent or empty,
  or ends in one newline after its names. On a file without a trailing
  newline, the name is glued onto the last entry. With `"Anja\nMaren"`,
  creating `Monsta` leaves `"Anja\nMarenMonsta"`: its names are
  `["Anja", "MarenMonsta"]`, yet the route still redirects to
  `/members/Monsta`.
- An invalid create, or an invalid rename of a known member, leaves the
  file and the flash unchanged and re-renders the form with the
  validator's messages. A rename to the same
  name is always refused, because the roster it is checked against still
  holds the old name.
- A valid rename overwrites the first occurrence of the old id. The roster
  keeps its length and its other entries.
- A delete removes every equal entry and keeps the order of the rest.
- A roster without duplicate names keeps that property under every rename
  and every delete, and under a create on a file that is empty or ends in
  one newline. A create on a file without a trailing newline can break it:
  on `"ab\na"`, creating `b` passes validation, and the file then reads
  `"ab"`, `"ab"` (`Routes.CreateGluesDuplicateExample`).
- The flash is shown by exactly one subsequent request. Every request
  clears it, and only a route that redirects sets a new one, so the request
  after any request sees a message exactly when that request redirected
  (`Routes.FlashConsumed`).

Behaviour of the code that is easy to miss:

- `store(names)` reproduces the file only when its text does not end in a
  newline (`Store.StoreLoadIdentity`). A text ending in newlines loses them.
- A name created with `add_member` is not always among `names` afterwards:
  after the append described above it is glued onto the last entry
  (`Store.AppendScenario`).
- `names` drops the empty fields at the end of the text, as Ruby's
  `split("\n")` does, and keeps the leading and inner ones.
- A delete on an absent file creates an empty one, because `store` opens
  the file for writing.
- A PUT for an unknown id, or one without a `name` parameter, raises an
  exception. That is the `ServerError` outcome.

## Model

| member | source | states |
|---|---|---|
| Lines.Join | code/sinatra/app.rb:100 | joining no lines gives the empty text; one line gives that line |
| Lines.Fields | code/sinatra/app.rb:78 | the fields of a text: at least one, none holds a newline, and joined with newlines they give back the text |
| Lines.Split | code/sinatra/app.rb:78 | `split("\n")` gives lines without newlines and without an empty last line; `Lines.SplitSpec` fixes which ones |
| Lines.DropTrailingEmpty | code/sinatra/app.rb:78 | the result is a prefix of the input, has no empty last element, and only empty elements were dropped |
| Lines.StripTrailingNewlines | code/sinatra/app.rb:78 | the result is the text with exactly the newlines at its end removed: a prefix, not ending in a newline, followed in the text only by newlines |
| Lines.SplitSpec | code/sinatra/app.rb:76-79 | `split("\n")` returns lines without newlines whose last is non-empty, and they join to the text minus its trailing newlines |
| Lines.SplitJoin | code/sinatra/app.rb:76-101 | splitting joined lines gives them back minus the empty lines at the end |
| Lines.SplitJoinRoundTrip | code/sinatra/app.rb:76-101 | lines without newlines whose last is non-empty survive join then split unchanged |
| Lines.JoinSplitIdentity | code/sinatra/app.rb:76-101 | split then join gives back the text exactly when it is empty or does not end in a newline |
| Lines.JoinSplitIdempotent | code/sinatra/app.rb:76-101 | a second split-and-join cycle changes nothing |
| Roster.Count | code/sinatra/app.rb:103-106 | the count of matches is at most the length, and zero exactly when the value is absent |
| Roster.IndexOf | code/sinatra/app.rb:95 | `index` is nil exactly when the value is absent; otherwise it is a position holding the value with none before it |
| Roster.ReplaceFirst | code/sinatra/app.rb:94-95 | the assignment fails exactly when the id is absent; otherwise the length is kept, the first id's position gets the new name and every other position is unchanged |
| Roster.ReplaceFirstCounts | code/sinatra/app.rb:93-97 | replacing the first id with a different name removes one id and adds one occurrence of the new name |
| Roster.ReplaceFirstWellFormed | code/sinatra/app.rb:93-97 | replacing with a non-empty line keeps the list storable without loss |
| Roster.CountUpdate | code/sinatra/app.rb:95 | overwriting one position moves one count from the old entry to the new one |
| Roster.Reject | code/sinatra/app.rb:104 | no rejected value remains, the length drops by the number of matches, and other values are kept |
| Roster.RejectAppend | code/sinatra/app.rb:104 | rejecting distributes over concatenation, so order is preserved |
| Roster.RejectAbsent | code/sinatra/app.rb:104 | rejecting an absent value changes nothing |
| Roster.RejectDistinct | code/sinatra/app.rb:104 | rejecting entries keeps a list without duplicates free of them |
| Roster.RejectAllLines | code/sinatra/app.rb:104 | the kept entries still hold no newline |
| Store.Appended | code/sinatra/app.rb:89-91 | after `add_member` the file exists and holds its old text followed by exactly the name |
| Store.Stored | code/sinatra/app.rb:99-101 | after `store(lines)` the file exists; it is empty for no lines, and otherwise its newline-separated fields are exactly the lines, when none holds a newline |
| Store.Load | code/sinatra/app.rb:76-79 | `names` is empty without a file, and always a well-formed list of lines |
| Store.LoadJoin | code/sinatra/app.rb:76-79 | the names read back join to the file's text minus its trailing newlines |
| Store.LoadStored | code/sinatra/app.rb:99-101 | `names` after `store(lines)` is `lines` minus its empty lines at the end |
| Store.LoadStoredRoundTrip | code/sinatra/app.rb:76-101 | `names` after `store(lines)` is `lines` when no line holds a newline and the last is non-empty |
| Store.LoadTrailingNewline | code/sinatra/app.rb:76-79 | a file of stored names followed by one newline reads back as those names, including a file holding only a newline, which reads as no names |
| Store.StoreLoadIdentity | code/sinatra/app.rb:76-101 | `store(names)` reproduces the file exactly when its text does not end in a newline |
| Store.StoreLoadIdempotent | code/sinatra/app.rb:76-101 | after one load-and-store, further ones leave the file as it is |
| Store.AppendAfterNewline | code/sinatra/app.rb:89-91 | appending to an absent or empty file, or to one ending in one newline after its names, adds the name as a new last entry |
| Store.AppendGlues | code/sinatra/app.rb:89-91 | appending to a text without a trailing newline glues the name onto the last entry |
| Store.AppendTwoNames | code/sinatra/app.rb:89-91 | appending to `a\nb` gives the names `[a, b + name]` |
| Store.AppendScenario | code/sinatra/app_spec.rb:52-59 | adding "Monsta" to "Anja\nMaren" gives the names `["Anja", "MarenMonsta"]`, which do not include "Monsta", while the text "Anja\nMarenMonsta" does |
| Members.ToS | code/sinatra/member.rb:5 | `to_s` turns nil into the empty string and keeps a string |
| Members.Member.constructor | code/sinatra/member.rb:4-6 | the name is the argument normalised with `to_s`: empty for nil or no argument, otherwise the string |
| Members.Member.Id | code/sinatra/member.rb:8-10 | the id is the name |
| Members.Member.SetName | code/sinatra/member.rb:2 | after assigning a name, both name and id equal it |
| Validation.Messages | code/sinatra/member_validator.rb:21-27 | at most one message; none exactly when the name is non-empty and not on the roster; the empty-name message takes precedence over the duplicate message |
| Validation.MemberValidator.constructor | code/sinatra/member_validator.rb:4-8 | the validator keeps the member and roster it is given and starts with no messages |
| Validation.MemberValidator.Names | code/sinatra/member_validator.rb:17-19 | the names of the roster validated against, one per member, position by position |
| Validation.MemberValidator.Validate | code/sinatra/member_validator.rb:21-27 | the rule's message, if any, is appended to `messages`; nothing else changes |
| Validation.MemberValidator.Valid | code/sinatra/member_validator.rb:10-13 | `messages` grows by the rule's messages; the answer is whether `messages` is empty, which on a fresh validator means the name is non-empty and new |
| Routes.BeforeFilter | code/sinatra/app.rb:12-14 | the request gets the stored flash, and the session flash is cleared; the file is kept |
| Routes.Create | code/sinatra/app.rb:26-38 | a redirect happens exactly when the name is non-empty and new; then it is appended, the flash is set and the redirect goes to its page; otherwise nothing changes and the form shows the messages |
| Routes.Update | code/sinatra/app.rb:50-63 | an unknown id or a missing name raises with nothing changed; a redirect happens exactly when the new name is non-empty and not on the roster as loaded; then the first old id is overwritten and the file stored; otherwise, for a known id and a given name, nothing changes and the form shows the messages |
| Routes.Delete | code/sinatra/app.rb:70-74 | the file is rewritten without the id, the removal flash is set and the redirect goes to the list |
| Routes.Handle | code/sinatra/app.rb:12-74 | each request shows the flash held before it; a GET clears it and changes nothing else; POST, PUT and DELETE run their route on the state with the flash cleared |
| Routes.CreateEmptyRejected | code/sinatra/app.rb:26-38 | an empty or missing name is refused with "You need to enter a name" and nothing changes |
| Routes.CreateDuplicateRejected | code/sinatra/app.rb:26-38 | a name on the roster is refused with the duplicate message and nothing changes |
| Routes.CreateAddsName | code/sinatra/app.rb:26-38 | a valid create on a file ending in one newline adds the name as the new last entry and redirects to it |
| Routes.CreateKeepsDistinct | code/sinatra/app.rb:26-38 | on an empty file or one ending in one newline, a create keeps a roster without duplicates free of them |
| Routes.CreateGluesDuplicate | code/sinatra/app.rb:26-38 | on a file holding `xy` then `x` without a trailing newline, which has no duplicates, creating `y` redirects and leaves the names `xy`, `xy` |
| Routes.CreateGluesDuplicateExample | code/sinatra/app.rb:26-38 | on "ab\na", creating "b" redirects and leaves the names "ab", "ab" |
| Routes.UpdateEmptyRejected | code/sinatra/app.rb:50-63 | renaming a known member to the empty name is refused with "You need to enter a name" and nothing changes |
| Routes.UpdateSameNameRejected | code/sinatra/app.rb:50-63 | renaming a member to its own name is refused with nothing changed |
| Routes.UpdateKeepsDistinct | code/sinatra/app.rb:50-63 | a rename of a known member to any line keeps a roster without duplicates free of them |
| Routes.UpdateOnTwoNames | code/sinatra/feature_spec.rb:62-82 | renaming the first of two names in a file ending in a newline redirects to the new page, sets the update flash, and stores the new name in the first position |
| Routes.UpdateRenames | code/sinatra/app.rb:50-63 | a valid rename keeps the length and other entries, puts the new name at the first old position and removes one old name |
| Routes.DeleteKeepsDistinct | code/sinatra/app.rb:70-74 | a delete keeps a roster without duplicates free of them |
| Routes.DeleteRemoves | code/sinatra/app.rb:70-106 | after a delete the id is gone and the rest keep their order; without empty entries the roster shrinks by the number of matches |
| Routes.FlashShownOnce | code/sinatra/app.rb:12-38 | after a successful create the next request shows the saved message and the one after it shows none |
| Routes.FlashConsumed | code/sinatra/app.rb:12-74 | whatever the request, it shows the flash held before it, and the request after it sees a message exactly when it redirected |
| Routes.CreateOnTwoNames | code/sinatra/app.rb:26-38 | on a file `a\nb`, creating `b` is refused as a duplicate, and a new name redirects but is glued onto `b` |
| Routes.CreateScenarios | code/sinatra/app_spec.rb:51-98 | on "Anja\nMaren", "Maren" is refused and the file kept; "Monsta" redirects to /members/Monsta and becomes "MarenMonsta" in the file |
| Application.App.Members | code/sinatra/app.rb:81-83 | one fresh member per name, in order, each named after it |
| Application.App.FindMember | code/sinatra/app.rb:85-87 | nil exactly when the id is not among the names; otherwise a member with that id |
| Application.Detect | code/sinatra/app.rb:85-87 | nil exactly when no member has the id; otherwise the first member that has it |
| Application.App.ValidateAgainstRoster | code/sinatra/app.rb:26-29 | validating a member against the roster as loaded gives the rule's messages, and it is valid exactly when there are none |
| Application.App.AddMember | code/sinatra/app.rb:89-91 | the file becomes its old text followed by the bare name, created when absent |
| Application.App.Store | code/sinatra/app.rb:99-101 | the file becomes the lines joined by newlines |
| Application.App.UpdateMember | code/sinatra/app.rb:93-97 | succeeds exactly when the id is among the names, storing them with the first id replaced; otherwise the file is untouched |
| Application.App.RemoveMember | code/sinatra/app.rb:103-106 | the file becomes the names without the given one, joined by newlines |
| Application.App.Before | code/sinatra/app.rb:12-14 | returns the session flash and clears it |
| Application.App.PostMembers | code/sinatra/app.rb:26-38 | state and outcome are those of `Routes.Create` |
| Application.App.PutMember | code/sinatra/app.rb:50-63 | state and outcome are those of `Routes.Update` |
| Application.App.DeleteMember | code/sinatra/app.rb:70-74 | state and outcome are those of `Routes.Delete` |
| Application.App.Serve | code/sinatra/app.rb:12-74 | the filter then the route, as `Routes.Handle` |
| Application.RenameWalkThrough | code/sinatra/feature_spec.rb:62-82 | on "Anja\nMaren\n", renaming Anja to Tyranja redirects to /members/Tyranja, the next request shows "Successfully updated the member: Tyranja.", and the roster reads Tyranja, Maren |

## Left out

- Sinatra and Rack request handling, `Rack::MethodOverride`, the cookie session, and the ERB templates are framework plumbing. A response is an `Outcome` value: a redirect location, a re-rendered form with its messages, a page, or an escaping exception.
- The GET routes only render. They appear only as the `GET` request, which runs the flash filter. A missing member on Show, Edit or Delete-confirm is just a nil passed to a template.
- File I/O is the `file` value. I/O failures are not modelled; the source does not handle them either.
- Interleaving of concurrent requests, and the lost updates it can cause, are not modelled.
- Application.App.FindMember: does not say that the member returned is the first matching object of the freshly built list. Every match is a fresh member with the same name, so no caller can tell them apart.
- Validation.MemberValidator.Validate: "only `messages` changes" is carried by its `modifies this` frame. The validator's `member` and `members` fields are constants, and the member objects are outside the frame.
- A name that holds a newline corrupts the file format. The lemmas that read stored names back require lines without newlines; such a name is not rejected, because the source does not reject it.
- Routes.Handle: a PUT that raises yields `ServerError` with the flash already cleared, as when the application handles its own errors. With `show_exceptions` or `raise_errors` set, the exception escapes the session middleware, the cookie is not rewritten and the old flash survives; that is not modelled, and `Routes.FlashConsumed` assumes the former.
- Members.Member.SetName: takes a string, while `name=` also accepts nil. The PUT route assigns nil when the `name` parameter is missing; `Application.App.PutMember` returns `ServerError` before that assignment, which is where the source's next step raises.
