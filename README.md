# Smart Feedback Portal — a verified model of the feedback and team domain

This project models the server side of the Smart Feedback Portal in Dafny: the relational store
behind the FastAPI handlers, the data-access (`crud_*`) functions that read and write it, the
handlers of the `/auth`, `/teams`, `/feedback` and `/notifications` routes that guard those
writes, and the two pieces of pure text handling around the language-model service.

- **Store** (`store.dfy`). One `Database` object with a map per table keyed by primary key:
  users, teams, feedback, comments, tags and notifications. It also holds the `feedback_tags`
  association as a set of pairs, one id allocator shared by every table (keys start at 1) and
  an abstract clock in place of `datetime.utcnow`. The clock ticks only when a row gets a
  timestamp. `Snapshot` is a value copy of the whole state, so each method can state its whole
  new state in one `ensures`.
- **Invariants.**
  - `Valid`: keys below the allocator; timestamps no later than the clock; notifications
    stamped in key order; unique `users.email` and `tags.name`.
  - `Consistent` adds the rest:
    - every foreign key resolves;
    - a manager has at most one team;
    - only employees are team members, and only managers manage teams;
    - every piece of feedback was given by the manager of its employee's team.

  Every handler keeps `Consistent`. Every write to users, teams, feedback, comments and
  notifications goes through a `Transitions` lemma that proves the invariants survive it. The
  tag table's writes are covered by `CrudTag.Reattach`.
- **Data access** (`crud_*.dfy`). Inserts, updates, flag setters and the tag get-or-create
  loop are methods on the database. Each states its new state exactly. Queries are functions.
  `Query.Where` and `Query.First` stand for `filter(...).all()` and `filter(...).first()`.
- **Handlers** (`api_*.dfy`). They are methods returning `Response<T>`: either
  `Ok(status, body)` or `Err(status, detail)`, with the exact status code and detail text.
  Every error answer leaves the store unchanged. `FlagsOneWay` states that no transition
  clears `acknowledged` or `is_read`, or removes a notification.
- **Response shapes** (`schemas.dfy`). `UserOut` drops the password hash; feedback, teams and
  comments are presented with their related rows looked up by id.
- **Language-model text** (`gemini.dfy`).
  - The three prompt builders, with their exact wording.
  - The tag post-processing: Python's `split(',')` and `strip()`, with round-trip lemmas for
    split and join.
  - The model call is a function parameter `generate`.

## Model

| member | source | states |
|---|---|---|
| Models.ApplyUpdate | server/app/crud/crud_feedback.py:41-43 | Only the fields set in the payload are written; the sentiment is always written, since the update payload requires it. Id, parties, acknowledgement and timestamps keep their values. |
| Models.ApplyUpdateIdempotent | server/app/crud/crud_feedback.py:41-43 | Applying the same update twice gives the same row as applying it once. |
| Models.Flush | server/app/models/feedback.py:35 | The flushed row equals the modified row except for `updated_at`. An unchanged row is written back as it was. A changed row gets the commit time in `updated_at`. |
| Query.Select | server/app/crud/crud_feedback.py:23 | The keys returned are exactly the stored keys whose row passes the filter, strictly ascending; the result is empty iff no row passes. |
| Query.Where | server/app/crud/crud_feedback.py:23 | `filter(p).all()`: a row is in the result iff it is stored under its own key and passes `p`. Rows come in ascending key order. The result is empty iff no row passes. |
| Query.First | server/app/crud/crud_user.py:13 | `filter(p).first()`: when a key is returned, its row passes `p` and no lower key's row does. None is returned iff no row passes. |
| Store.PartiesDiffer | server/app/api/endpoints/feedback.py:27-30 | In a consistent store, a feedback row's employee and manager both exist and are different users: one is an employee, the other a manager. |
| Transitions.InsertUser | server/app/crud/crud_user.py:23-31 | Inserting a user with a fresh key, an unregistered email and no team keeps `Valid`, and keeps `Consistent`. |
| Transitions.InsertUserValid | server/app/models/user.py:14 | Inserting a user under a fresh key with an unregistered email keeps the unique-email invariant and the rest of `Valid`. |
| Transitions.InsertTeam | server/app/crud/crud_team.py:22-25 | Inserting a team keeps `Valid`. It keeps `Consistent` when the manager exists, is a manager and has no team yet. |
| Transitions.AssignTeam | server/app/crud/crud_team.py:32-35 | Setting an existing user's team keeps `Valid`. It keeps `Consistent` when the user is an employee with no team. |
| Transitions.InsertFeedback | server/app/crud/crud_feedback.py:10-16 | Inserting feedback stamped at the next clock reading keeps `Valid`. It keeps `Consistent` when the manager manages the employee's team. |
| Transitions.InsertFeedbackValid | server/app/models/feedback.py:34-35 | A freshly keyed feedback row stamped at the next clock reading keeps `Valid`. |
| Transitions.ReplaceFeedback | server/app/crud/crud_feedback.py:42-46 | Rewriting a feedback row keeps both invariants, given that its parties and `created_at` stay and `updated_at` does not go back. |
| Transitions.InsertComment | server/app/crud/crud_comment.py:9-16 | Inserting a comment keeps `Valid`. It keeps `Consistent` when the feedback and the author exist. |
| Transitions.InsertNotification | server/app/crud/crud_notification.py:9-12 | Inserting a notification keeps `Valid`, including stamps in key order. It keeps `Consistent` when the recipient exists. |
| Transitions.MarkRead | server/app/crud/crud_notification.py:27-28 | Setting `is_read` on a stored notification keeps both invariants. |
| Transitions.CommentsNotOn | server/app/models/feedback.py:39 | A comment survives a feedback deletion iff it is on another feedback; survivors are unchanged. |
| Transitions.PairsNotOn | server/app/models/feedback.py:17-22 | A tag association survives iff it belongs to another feedback. |
| Transitions.RemoveFeedback | server/app/models/feedback.py:39-40 | Deleting feedback together with its comments and tag associations keeps both invariants. |
| CrudUser.GetUser | server/app/crud/crud_user.py:34-38 | Some iff the id is a stored key; the user returned is the stored row and carries that id. |
| CrudUser.GetUserByEmail | server/app/crud/crud_user.py:6-13 | Some iff the email is registered; the user returned is a stored row with that email. |
| CrudUser.CreateUser | server/app/crud/crud_user.py:15-32 | For a registered email the commit fails on the unique index and raises; this is modelled as None with nothing written. Otherwise exactly one user is added under a fresh key. It stores email, name and role as given, the hash of the password and no team. |
| CrudTeam.GetTeam | server/app/crud/crud_team.py:6-10 | Some iff the id is a stored key; the team returned is the stored row. |
| CrudTeam.GetTeamByManager | server/app/crud/crud_team.py:12-16 | The team returned is stored and has that manager. None iff no stored team has that manager. |
| CrudTeam.TeamByManagerIs | server/app/crud/crud_team.py:12-16 | With one team per manager, the team found for a manager has key `teamId` iff team `teamId` exists and is managed by that manager. |
| CrudTeam.CreateTeam | server/app/crud/crud_team.py:18-26 | Exactly one team is added, with the given name and manager; nothing else changes. |
| CrudTeam.AddEmployeeToTeam | server/app/crud/crud_team.py:28-36 | With no role or membership check, the user's `team_id` becomes the team's id. All other users, teams and tables are unchanged. |
| CrudFeedback.CreateFeedback | server/app/crud/crud_feedback.py:6-17 | Exactly one row is added, carrying the payload's fields and the given manager. It is unacknowledged, and created and updated at the new clock reading. |
| CrudFeedback.GetFeedbackByEmployee | server/app/crud/crud_feedback.py:19-23 | Exactly the stored rows whose employee is the argument, in ascending key order. |
| CrudFeedback.GetFeedbackByManager | server/app/crud/crud_feedback.py:25-29 | Exactly the stored rows whose manager is the argument, in ascending key order. |
| CrudFeedback.GetFeedback | server/app/crud/crud_feedback.py:31-35 | The row with that id, or None iff there is none. |
| CrudFeedback.UpdateFeedback | server/app/crud/crud_feedback.py:37-47 | The row becomes `Flush` of the payload applied to it. The clock ticks only if a column changed. Other rows and tables are unchanged. |
| CrudFeedback.AcknowledgeFeedback | server/app/crud/crud_feedback.py:49-57 | The result is acknowledged. Only `acknowledged` and `updated_at` of that row can change, and an already acknowledged row leaves the store unchanged. |
| CrudFeedback.DeleteFeedback | server/app/models/feedback.py:39-40 | Removes the row, its comments and its tag associations. Tags and every other table stay. Both invariants are kept. |
| CrudComment.CreateComment | server/app/crud/crud_comment.py:5-17 | Exactly one comment is added. Content and feedback come from the payload, the author is the `userId` argument, and the feedback is not checked. No other table changes. |
| CrudNotification.CreateNotification | server/app/crud/crud_notification.py:5-13 | Exactly one unread notification is added, for the given user with the given message, stamped at the next clock reading. |
| CrudNotification.NewestFirstSpec | server/app/crud/crud_notification.py:19 | Walking keys downwards meets exactly that user's notifications, with `created_at` strictly decreasing. |
| CrudNotification.ReadMarked | server/app/crud/crud_notification.py:25-28 | The same keys, each row unchanged except `is_read`. A row is read afterwards iff it was read before or it has that id and that owner. |
| CrudNotification.GetNotificationsByUser | server/app/crud/crud_notification.py:15-19 | Exactly the stored notifications of that user, ordered by `created_at`, newest first. |
| CrudNotification.ReadMarkedFrame | server/app/crud/crud_notification.py:25-28 | Marking keeps every key and touches no other key and no other owner's row. It changes at most `is_read` and never clears it. |
| CrudNotification.ReadMarkedIdempotent | server/app/crud/crud_notification.py:27 | Marking the same notification twice equals marking it once. |
| CrudNotification.MarkNotificationAsRead | server/app/crud/crud_notification.py:21-30 | Some iff both the id and the owner match, and then the returned row is read. None leaves the store unchanged. The new inbox is `ReadMarked` of the old one. |
| CrudTag.Resolve | server/app/crud/crud_tag.py:10-19 | One tag per input name. |
| CrudTag.StepStores | server/app/crud/crud_tag.py:12-18 | One iteration returns a stored tag of that name, keeps the keys allocated and changes no stored row. |
| CrudTag.StepSpec | server/app/crud/crud_tag.py:12-18 | One iteration reuses an existing row untouched, or inserts the only new row, named `name`, which was missing before. The unique-name invariant is kept. |
| CrudTag.NamesGrow | server/app/crud/crud_tag.py:13-17 | A name the catalogue holds is still there after rows are added. |
| CrudTag.ResolveGrows | server/app/crud/crud_tag.py:10-19 | The loop keeps the catalogue's invariants, and every row stored before is still stored, unchanged. |
| CrudTag.ResolveStores | server/app/crud/crud_tag.py:10-19 | Entry `i` of the result has name `names[i]` and is stored in the table afterwards. |
| CrudTag.ResolveInsertsOnlyMissing | server/app/crud/crud_tag.py:13-17 | A row is inserted only for an input name that was absent before. |
| CrudTag.ResolveKnownUnchanged | server/app/crud/crud_tag.py:12-13 | When every input name already exists (in particular for an empty input), the table is unchanged. |
| CrudTag.ResolveSpec | server/app/crud/crud_tag.py:6-19 | The whole promise of `get_or_create_tags`: one stored tag per name, in order; the unique-name invariant holds; old rows stay; inserts only for missing names; nothing changes when all names are known. |
| CrudTag.ResolveSameName | server/app/crud/crud_tag.py:11-14 | A name repeated in the input resolves to the same tag both times. |
| CrudTag.ResolveIdempotent | server/app/crud/crud_tag.py:12-13 | Running the loop again on its own result inserts nothing and returns the same tags. |
| CrudTag.Reattach | server/app/models/tag.py:10 | A tag catalogue grown by the loop, put back into the store, keeps both invariants. |
| CrudTag.GetOrCreateTags | server/app/crud/crud_tag.py:6-19 | The loop computes exactly `Resolve` of the old tag table. Only the tag table and the allocator change, and both invariants are kept. |
| Schemas.PublicForgetsOnlyPassword | server/app/schemas/user.py:18-20 | Two users present the same iff they differ at most in the password hash. |
| Schemas.PublicAll | server/app/schemas/user.py:18-20 | Each user is presented in place, without the hash. |
| Schemas.PresentComment | server/app/schemas/comment.py:11-17 | A comment is shown with its id, content and creation time and its author's public shape. |
| Schemas.CommentsOf | server/app/models/feedback.py:39 | Exactly the stored comments on that feedback, each once, in ascending id order; empty iff none is on it. |
| Schemas.TagsOf | server/app/models/feedback.py:40 | Exactly the stored tags associated with that feedback, each once, in ascending id order; empty iff none is. |
| Schemas.PresentComments | server/app/schemas/comment.py:11-17 | Each comment is presented in place, with its author's public shape. |
| Schemas.PresentedComments | server/app/models/relationships.py:25 | Presenting the comments found on a row gives an entry for each stored comment on that row and no other entry. |
| Schemas.PresentFeedback | server/app/schemas/feedback.py:23-34 | The row's columns; the public shapes of its employee and manager; an entry for exactly the stored comments on it and exactly the tags associated with it, each once, in ascending id order. |
| Schemas.FreshFeedbackIsBare | server/app/schemas/feedback.py:30-31 | Just-created feedback is presented with empty comments and tags, and the insert keeps both invariants. |
| Schemas.MembersOf | server/app/schemas/team.py:17 | Exactly the stored users whose team is this one, each once, in ascending id order. |
| Schemas.PublicMembers | server/app/models/relationships.py:20 | The public shapes of a team's members contain a stored user's shape iff that user is in the team, and nothing else. |
| Schemas.PresentTeam | server/app/schemas/team.py:14-20 | The team's id and name and its manager's public shape. A stored user's entry is among the members iff the user's team is this one, and every entry is the public shape of such a member. Entries are in ascending id order, so no user appears twice. |
| Schemas.PublicRows | server/app/schemas/team.py:22-24 | Each team is presented as id and name only, in place. |
| Schemas.PublicTeams | server/app/schemas/team.py:22-24 | One (id, name) entry per stored team and no other, in ascending id order. |
| Schemas.PresentNotification | server/app/schemas/notification.py:10-13 | The response keeps a notification's id, message, read flag and creation time. |
| Schemas.PresentForgetsOnlyRecipient | server/app/schemas/notification.py:10-13 | Two notifications present the same iff they differ at most in the recipient. |
| AuthApi.RegisterUser | server/app/api/endpoints/auth.py:13-29 | 400 iff the email is registered, and then nothing changes. Otherwise exactly one new user with the hashed password and no team, returned without the hash. The invariants (unique email included) are kept. |
| AuthApi.LoginForAccessToken | server/app/api/endpoints/auth.py:32-51 | Succeeds iff some user has that email and the password verifies against its hash. Then the token's subject is that user's id and its type is "bearer". Otherwise 401. |
| TeamsApi.CreateTeam | server/app/api/endpoints/teams.py:12-26 | 400 iff the caller already manages a team, and then nothing changes. Otherwise 201 with exactly one new team managed by the caller and no members. |
| TeamsApi.ReadMyTeam | server/app/api/endpoints/teams.py:28-36 | 404 iff the caller manages no team. Otherwise the caller's team presented with its manager and members. |
| TeamsApi.AddTeamMember | server/app/api/endpoints/teams.py:38-59 | Checks ownership (403), existence (404), role (400) and free membership (400), in that order; the first failure decides. Failure changes nothing; success sets only that user's team. |
| TeamsApi.ReadTeams | server/app/api/endpoints/teams.py:73-79 | Every team as (id, name), no other entry, in ascending id order. |
| FeedbackApi.CreateFeedback | server/app/api/endpoints/feedback.py:14-35 | 404 iff the employee is unknown, 403 iff the caller does not manage the employee's team; no other error. Either error writes nothing. Otherwise the request succeeds with 201 and exactly one new unacknowledged row with the caller as manager, returned with no comments and no tags. |
| FeedbackApi.ReadFeedback | server/app/api/endpoints/feedback.py:37-50 | A manager gets exactly the rows they gave, anyone else exactly the rows they received, in key order. |
| FeedbackApi.CommentNotice | server/app/api/endpoints/feedback.py:120 | The notice is the author's full name followed by " commented on your feedback." |
| FeedbackApi.ManagerSeesOwnTeam | server/app/api/endpoints/feedback.py:27-34 | In a consistent store, every row a manager lists is about an employee of the team that manager manages. |
| FeedbackApi.ExportFeedbackAsPdf | server/app/api/endpoints/feedback.py:125-141 | 404 iff the caller has no visible feedback. Otherwise the renderer gets the very list that `GET /feedback` returns, which is non-empty. |
| FeedbackApi.UpdateFeedback | server/app/api/endpoints/feedback.py:52-68 | 404 iff the id is unknown, 403 iff the caller did not give the feedback; no other error. Either error writes nothing. Otherwise the update succeeds with 200: the row becomes the flushed partial update and nothing else changes. |
| FeedbackApi.AcknowledgeFeedback | server/app/api/endpoints/feedback.py:70-85 | 404 iff the id is unknown, 403 iff the caller did not receive the feedback (a manager always gets an error); no other error. Either error writes nothing. Otherwise acknowledging succeeds with 200, and a second acknowledgement changes nothing. |
| FeedbackApi.PostComment | server/app/api/endpoints/feedback.py:106-121 | Exactly one comment by the author and one unread notice to the other party, who is a different user; no other change. |
| FeedbackApi.CreateCommentOnFeedback | server/app/api/endpoints/feedback.py:87-123 | 404 iff the id is unknown, 403 iff the caller is neither party; no other error. Either error writes nothing. Otherwise commenting succeeds with 200: the comment is on the path's feedback, whatever the payload named, its author is the caller, and exactly one notification goes to the other party. |
| NotificationsApi.PresentAll | server/app/schemas/notification.py:10-13 | Each notification is presented in place. |
| NotificationsApi.ReadNotifications | server/app/api/endpoints/notifications.py:12-20 | A stored notification is listed iff it is addressed to the caller, and every entry presents such a notification. The list is strictly newest first, so none is listed twice. |
| NotificationsApi.MarkNotificationAsRead | server/app/api/endpoints/notifications.py:22-34 | Always 204 with no body. Only the caller's own notification of that id can be marked, another user's rows are untouched, and no flag is cleared. |
| Gemini.Split | server/app/services/gemini_service.py:44 | `split(sep)`: one piece more than there are separators, none containing the separator. |
| Gemini.JoinExtendsHead | server/app/services/gemini_service.py:44 | Growing the first piece grows the joined text at its front. |
| Gemini.JoinSplit | server/app/services/gemini_service.py:44 | Joining the pieces of a split with the separator gives the text back. |
| Gemini.SplitUnderPrefix | server/app/services/gemini_service.py:44 | A separator-free prefix only extends the first piece of a split. |
| Gemini.SplitJoin | server/app/services/gemini_service.py:44 | Splitting the join of separator-free pieces gives back the same pieces. |
| Gemini.SkipSpace | server/app/services/gemini_service.py:44 | The first non-whitespace position at or after `i`; everything skipped is whitespace. |
| Gemini.BackSpace | server/app/services/gemini_service.py:44 | The end of a stretch once its trailing whitespace is cut; everything cut is whitespace. |
| Gemini.Strip | server/app/services/gemini_service.py:44 | `strip()` yields a text with no whitespace at either end, no longer than the input, made only of the input's characters. |
| Gemini.StripSpec | server/app/services/gemini_service.py:44 | `strip()` keeps exactly the middle stretch: all that is removed is whitespace, and the result has no whitespace at either end. |
| Gemini.StripIdempotent | server/app/services/gemini_service.py:44 | Stripping twice is stripping once. |
| Gemini.StripKeepsOut | server/app/services/gemini_service.py:44 | Stripping introduces no character. |
| Gemini.StripAll | server/app/services/gemini_service.py:44 | The comprehension strips each piece in place. |
| Gemini.SuggestedTags | server/app/services/gemini_service.py:44 | One tag more than the response has commas; no tag contains a comma or has surrounding whitespace. |
| Gemini.SuggestedTagsSpec | server/app/services/gemini_service.py:44 | As many tags as commas plus one, so the list is never empty. Tags keep the response's order, contain no comma and have no surrounding whitespace. |
| Gemini.SuggestedTagsOfList | server/app/services/gemini_service.py:36-44 | A comma-separated list of comma-free pieces yields exactly those pieces, stripped, in order. Neither the "up to 3" nor the vocabulary of the prompt is enforced. |
| Gemini.Quoted | server/app/services/gemini_service.py:14 | The prefix, the text and two quotes, nothing else. |
| Gemini.UnquoteQuoted | server/app/services/gemini_service.py:11-15 | The embedded text can be read back from a quoted prompt. |
| Gemini.QuotedUnquote | server/app/services/gemini_service.py:11-15 | A prompt from which a text can be read back is exactly the quoted form of that text. |
| Gemini.QuotedInjective | server/app/services/gemini_service.py:23-27 | Different inputs never give the same prompt. |
| Gemini.PromptsEmbedVerbatim | server/app/services/gemini_service.py:11-42 | Each builder places its input, unchanged and between single quotes, after its fixed wording. For tags, the input is the "Strengths: ... Areas for improvement: ..." content. |
| Gemini.GenerateFeedbackSuggestion | server/app/services/gemini_service.py:7-17 | The result is the model's unchanged answer to the one prompt that carries the points quoted after the fixed feedback wording. |
| Gemini.RephraseText | server/app/services/gemini_service.py:19-29 | The result is the model's unchanged answer to the one prompt that carries the text quoted after the fixed rephrase wording. |
| Gemini.SuggestTagsForFeedback | server/app/services/gemini_service.py:31-45 | For any model answer, the i-th tag is the i-th comma-separated piece of the answer, stripped. There are as many tags as commas plus one, and none contains a comma or surrounding whitespace. |

## Left out

- The React client: display only.
- The PDF rendering service: ReportLab layout and byte streams. The export handler is modelled
  up to the list it hands to the renderer.
- The language-model call and its configuration: a network call. The model is a function
  parameter `generate` from prompt to answer.
- Password hashing, password verification and token creation: the security module is not part
  of this model. They are function parameters.
- The role gates of the authentication dependencies (current user, current manager) are not
  part of this model. They are preconditions: `IsCaller(caller)`, plus `caller.role == Manager`
  where the route demands a manager.
- Sessions, dependency wiring, application start-up and configuration are plumbing. The ORM
  relationships (a user's team, a team's manager and members, a feedback row's parties,
  comments and tags) are id references resolved by lookups.
- Team statistics and tag listing call data-access functions that do not exist in the code.
  They are not modelled.
- The teams handlers pass keyword names that the team data-access functions do not declare.
  They also subscript the caller and the rows they get back as dictionaries (`current_user['id']`,
  `team['id']`, `user_to_add['role']`, `user_to_add.get('team_id')`), while the data-access
  layer returns ORM objects. What raises, and where, depends on the path:
  - `current_user['id']` works or raises depending on what the current-manager dependency
    returns, which is not part of this model.
  - `team['id']` (teams.py:46) raises once a team is found. A manager with no team still gets
    the 403, because `not team` is tested first.
  - `user_to_add['role']` (teams.py:54) raises once the user is found.
  - `team_in=` (teams.py:25) and `team_id=`/`user_id=` (teams.py:59) raise only on the
    success path, after every check has passed.

  The handlers are modelled with attribute access and with the checks and data-access
  semantics they evidently intend. The list-all-teams function they call does not exist; `TeamsApi.ReadTeams` returns
  every team as (id, name).
- Concurrency: requests are sequential. The check-then-insert races in team creation and in
  the tag loop are not modelled.
- Timestamps are readings of an abstract clock that ticks once per stamped write, not wall
  time.
- Query order:
  - A query without ORDER BY (`.all()`, `.first()`) is modelled in ascending key order, one
    order the database may return.
  - So are the relationship lists without `order_by`: `feedback.comments`, `feedback.tags`
    and `team.members` (`Schemas.CommentsOf`, `Schemas.TagsOf`, `Schemas.MembersOf`).
  - `.first()` on a filter is therefore the lowest-keyed match.
  - The notification inbox is ordered by descending key. Since notifications are stamped in
    key order, this is exactly descending `created_at`, and that is proved.
- Primary-key getters (`get_user`, `get_team`, `get_feedback`) are direct key lookups. With
  unique keys they return the same row as `filter(id == ...).first()`.
- `CrudFeedback.DeleteFeedback` has no route. It models the delete cascade that the feedback
  model's relationships declare.
- A failed commit (a broken connection, a violated constraint other than the unique email) is
  not modelled.
- Integer widths: ids and clock readings are unbounded.
- Ids come from one allocator shared by all tables, not from a sequence per table. The ids
  handed out therefore differ from the database's, but every property stated depends only on
  ids being fresh and increasing within a table.
- AuthApi.RegisterUser: the registration email is taken as the validated payload delivers it.
  `EmailStr` validation rejects a malformed address with 422 before the handler runs, and
  normalises the address (the domain is lower-cased). That step is not modelled, so
  `UserCreate.email` stands for the normalised form.
- AuthApi.LoginForAccessToken compares the raw form username. A user who registered with an
  upper-case domain is stored under the lower-cased address, so logging in with the address as
  typed fails with 401. The model, which does not normalise, does not capture this mismatch.
- `FeedbackApi.ReadFeedback` returns the stored rows rather than their serialised form. How a
  row is serialised is `Schemas.PresentFeedback`, which is not mapped over the list.
