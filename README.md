# Research console cards and news-writer panel

A Dafny model of two client-side user-interface components of a
Space Station 14 build.

**The research console window** (`ResearchConsoleMenu`) keeps two containers of
technology mini-cards: the technologies that can be researched now, and the
unlocked ones. It also keeps a grid of full technology cards laid out in rows of
two.

- `SyncTechnologyList` reconciles a container with a new list of technologies.
  1. It indexes the existing mini-cards by technology. This throws on a
     duplicate key.
  2. It walks the list. It creates a card for each technology without one and
     takes the others off the index.
  3. It removes, by reference, every card still left in the index.
- `UpdatePanels` runs on each state update.
  1. It clears the grid and syncs the available container.
  2. When the console has a technology database, it builds the grid row by row
     and then syncs the unlocked container.

In the model, a container is a `BoxContainer` object whose `children` sequence
the methods reassign. Mini-cards are objects, so removal by reference is
modelled by removing an object. What a synchronisation must produce is the
predicate `TechnologyCards.Synced`, written over plain sequences.
`SyncTechnologyList` is proved against it. The lemmas then show three things:

- after a sync, the cards are exactly the listed technologies;
- the sync keeps unique keys and is idempotent;
- the source's treatment of repeated technologies has specific consequences.

**The news-writer panel** (`NewsWriteBoundUserInterface`) owns the writing
menu.

- Opening the panel asks the server for the articles.
- State updates are handed to the menu.
- The delete button sends a delete message.
- The share button does the following:
  1. It rejects an empty name or empty content. The check is on the raw text.
  2. It trims both fields.
  3. A field whose raw length is over the configured limit is cut to the limit
     and gets `"..."` appended.
  4. It clears the fields and sends the pair.

The text computation is the pure module `NewsSanitizer`. The panel is a class
whose `outbox` records the messages sent.

Modules:

- `Wrappers`: `Option` and `Result`.
- `TechnologyCards`: children, mini-cards, and the specification of a
  synchronisation.
- `ResearchConsole`: `BoxContainer`, the dictionary build, the grid rows, the
  access predicate, and the class `ResearchConsoleMenu`.
- `NewsSanitizer`: `char.IsWhiteSpace`, `String.Trim`, truncation, and the share
  submission.
- `NewsWrite`: messages, bound states, and the class
  `NewsWriteBoundUserInterface`.

Two behaviours of the share button are worth noting:

- **Whitespace-only fields.** The emptiness checks at
  `NewsWriteBoundUserInterface.cs:67` and `:72` test the raw text, so a
  whitespace-only name or content is not refused. How it is sent depends on
  the limit:
  - If its raw length fits the limit, it is sent as the empty string
    (`WhiteSpaceNameSentEmpty`, `WhiteSpaceContentSentEmpty`).
  - If it is longer than a positive limit, the cut throws and nothing is
    sent.
  - If the limit is zero, it is sent as the bare `"..."`
    (`WhiteSpaceOverLimit`).
- **Truncation test.** Whether to truncate is decided on the raw length, not the
  trimmed length. A padded text over the limit whose trimmed form is shorter
  than the limit makes `Substring` throw (`PaddedTextOverLimitFails`). That
  exception is modelled as the `SubstringOutOfRange` outcome: the share sends
  nothing and changes nothing.

## Model

| member | source | states |
|---|---|---|
| TechnologyCards.Drop | Content.Client/Research/UI/ResearchConsoleMenu.xaml.cs:138-143 | Removing the cards of the stale technologies leaves exactly the other technologies with a card. |
| TechnologyCards.Created | Content.Client/Research/UI/ResearchConsoleMenu.xaml.cs:123-136 | The walk over the new list creates cards only for listed technologies, and at most one per list entry. |
| TechnologyCards.Missing | Content.Client/Research/UI/ResearchConsoleMenu.xaml.cs:123-136 | Reference definition: the technologies of the list without a card form exactly the listed set minus the existing keys. |
| TechnologyCards.CreatedCoversMissing | Content.Client/Research/UI/ResearchConsoleMenu.xaml.cs:123-130 | Every listed technology that had no card gets one created. |
| TechnologyCards.CreatedWithoutRepeats | Content.Client/Research/UI/ResearchConsoleMenu.xaml.cs:123-136 | For a list without repeats, the cards created are exactly the missing technologies, in list order. |
| TechnologyCards.RemoveSoleCard | Content.Client/Research/UI/ResearchConsoleMenu.xaml.cs:140-143 | When keys are unique, removing a card object by reference removes exactly the cards of its technology. |
| TechnologyCards.RemoveStaleCard | Content.Client/Research/UI/ResearchConsoleMenu.xaml.cs:138-143 | One removal step of the final loop drops that technology's old card and leaves the created cards alone. |
| TechnologyCards.SyncedContents | Content.Client/Research/UI/ResearchConsoleMenu.xaml.cs:111-143 | After a sync, the technologies with a card are exactly the listed ones. The old children kept are exactly the other controls and the cards of listed technologies, and they form the old children in their old order without the stale cards. The created cards follow them. |
| TechnologyCards.SyncedUnique | Content.Client/Research/UI/ResearchConsoleMenu.xaml.cs:111-143 | Syncing a container with unique keys to a list without repeats keeps keys unique, so the next dictionary build cannot throw. |
| TechnologyCards.SyncIdempotent | Content.Client/Research/UI/ResearchConsoleMenu.xaml.cs:111-143 | Syncing again with the same list without repeats creates nothing, removes nothing and leaves the children unchanged. |
| TechnologyCards.RepeatedTechBreaksNextSync | Content.Client/Research/UI/ResearchConsoleMenu.xaml.cs:119-130 | The dictionary is not updated when a card is created, so a list with a technology twice creates two cards for it. The next sync's dictionary build then fails on the duplicate key. |
| TechnologyCards.RepeatOfExistingTechCreatesCard | Content.Client/Research/UI/ResearchConsoleMenu.xaml.cs:125-135 | A technology that already has a card is taken off the dictionary the first time it is met. A second occurrence creates a new card. |
| ResearchConsole.IndexCards | Content.Client/Research/UI/ResearchConsoleMenu.xaml.cs:113-121 | The dictionary build succeeds exactly when no two mini-cards share a technology. On success, its keys are the technologies with a card, and each entry maps to a child card of that technology. |
| ResearchConsole.RowsShape | Content.Client/Research/UI/ResearchConsoleMenu.xaml.cs:68-89 | n grid cards fill ceil(n/2) rows, and row k holds cards 2k and 2k+1 of the list. |
| ResearchConsole.RowsFlatten | Content.Client/Research/UI/ResearchConsoleMenu.xaml.cs:68-89 | Reading the rows in order gives back the card list: no card is lost, duplicated or reordered. |
| ResearchConsole.RowsSnoc | Content.Client/Research/UI/ResearchConsoleMenu.xaml.cs:79-88 | A card at an even index starts a new row. A card at an odd index joins the last row, which exists. |
| ResearchConsole.ResearchConsoleMenu.constructor | Content.Client/Research/UI/ResearchConsoleMenu.xaml.cs:34-44 | The window starts with two distinct, empty card containers and an empty grid. |
| ResearchConsole.ResearchConsoleMenu.SyncTechnologyList | Content.Client/Research/UI/ResearchConsoleMenu.xaml.cs:111-143 | Succeeds exactly when the container's keys are unique, and then leaves the container synchronised with the list (`Synced`), with freshly created cards. On a duplicate key it changes nothing. |
| ResearchConsole.ResearchConsoleMenu.AddMissingCards | Content.Client/Research/UI/ResearchConsoleMenu.xaml.cs:123-136 | Appends the created cards to the container. The dictionary ends as the original index minus the listed technologies. |
| ResearchConsole.ResearchConsoleMenu.RemoveCards | Content.Client/Research/UI/ResearchConsoleMenu.xaml.cs:138-143 | Removing each card left in the dictionary leaves the old children without the stale technologies' cards, followed by the created cards. |
| ResearchConsole.ResearchConsoleMenu.UpdatePanels | Content.Client/Research/UI/ResearchConsoleMenu.xaml.cs:52-93 | The grid ends as the rows of the database's current cards, or empty when there is no database or the first sync failed. The available container is synced with the available list. Every grid card carries the same access flag, `HasAccess`, which is false exactly when there is a local entity, the console has an access reader, and the reader refuses the entity (lines 62-64). The unlocked container is synced only when a database exists and the first sync succeeded. `ok` reports whether any sync failed. The two containers stay distinct. |
| NewsSanitizer.TrimShape | Content.Client/MassMedia/Ui/NewsWriteBoundUserInterface.cs:80-81 | Trim removes only white space and only at the ends. The trimmed text is a slice of the input and neither starts nor ends with white space. |
| NewsSanitizer.TrimEmpty | Content.Client/MassMedia/Ui/NewsWriteBoundUserInterface.cs:80-81 | Trimming gives the empty string exactly when the text is all white space. |
| NewsSanitizer.TrimUnpadded | Content.Client/MassMedia/Ui/NewsWriteBoundUserInterface.cs:80-81 | Text without white space at either end is unchanged by trimming. |
| NewsSanitizer.Shorten | Content.Client/MassMedia/Ui/NewsWriteBoundUserInterface.cs:80-81 | A field within its limit is sent trimmed and within the limit. A longer field gets the first `limit` characters of the trimmed text plus "...", so exactly limit + 3 characters. The cut fails exactly when the trimmed text is shorter than the limit or the limit is negative. |
| NewsSanitizer.Submission | Content.Client/MassMedia/Ui/NewsWriteBoundUserInterface.cs:65-81 | The name is rejected exactly when empty. The content is rejected exactly when the name is not empty and the content is empty. Otherwise the press succeeds exactly when both cuts succeed, and each value sent is at most limit + 3 and at most raw length + 3 characters. |
| NewsSanitizer.SentFieldUnpadded | Content.Client/MassMedia/Ui/NewsWriteBoundUserInterface.cs:80-81 | A field within its limit is sent as a slice of what was typed, starting after its leading white space, with no white space at either end. |
| NewsSanitizer.WhiteSpaceNameSentEmpty | Content.Client/MassMedia/Ui/NewsWriteBoundUserInterface.cs:65-80 | A non-empty, whitespace-only name within the limit passes the emptiness check and is sent as the empty string. |
| NewsSanitizer.WhiteSpaceOverLimit | Content.Client/MassMedia/Ui/NewsWriteBoundUserInterface.cs:80-81 | A non-empty, whitespace-only field longer than its limit is not sent empty. With a limit of zero it becomes "...". With any other limit the cut fails. |
| NewsSanitizer.WhiteSpaceContentSentEmpty | Content.Client/MassMedia/Ui/NewsWriteBoundUserInterface.cs:70-81 | The content "   " with name "name" and limits of 10 is sent as ("name", ""), not refused. |
| NewsSanitizer.TruncationAddsMarker | Content.Client/MassMedia/Ui/NewsWriteBoundUserInterface.cs:81 | Fifteen characters without white space and a limit of 10 give the first ten characters plus "...", 13 in all. |
| NewsSanitizer.PaddedTextOverLimitFails | Content.Client/MassMedia/Ui/NewsWriteBoundUserInterface.cs:80-81 | "ab   " with a limit of 3 is over the limit by raw length, but its trimmed form "ab" is too short to cut, so the share fails. |
| NewsWrite.NewsWriteBoundUserInterface.constructor | Content.Client/MassMedia/Ui/NewsWriteBoundUserInterface.cs:26-29 | A new panel has no menu, nothing shown and nothing sent. |
| NewsWrite.NewsWriteBoundUserInterface.Open | Content.Client/MassMedia/Ui/NewsWriteBoundUserInterface.cs:31-44 | Opening creates the menu with empty fields and nothing shown, and sends exactly one articles request. |
| NewsWrite.NewsWriteBoundUserInterface.UpdateState | Content.Client/MassMedia/Ui/NewsWriteBoundUserInterface.cs:56-63 | A news-writer state is shown when the menu exists. Another kind of state, or a missing menu, changes nothing. Nothing is sent. |
| NewsWrite.NewsWriteBoundUserInterface.OnShareButtonPressed | Content.Client/MassMedia/Ui/NewsWriteBoundUserInterface.cs:65-86 | With a menu and a successful `Submission`, both fields are cleared and exactly one share message with the sanitised pair is sent. In every other case nothing changes. `ok` is false exactly when the cut threw. |
| NewsWrite.NewsWriteBoundUserInterface.OnDeleteButtonPressed | Content.Client/MassMedia/Ui/NewsWriteBoundUserInterface.cs:88-93 | With a menu, exactly one delete message for the given article number is sent, with no bounds check. Without a menu nothing is sent. The fields are untouched either way. |

## Left out

- `UpdateInformationPanel` (lines 101-109 of the research menu): it formats a localised points label and has no logic beyond that. Localisation and rich-text markup are not modelled.
- `SetEntity`, the server button and the card-pressed callbacks: entity handles and delegate wiring are not modelled. A grid card records only its technology, which is what its callback reports.
- Prototype lookup and technology descriptions: a technology is its prototype id, and card construction records only the technology, the points and the access flag. Sprites, XAML layout and dependency injection are outside the model.
- ECS queries: the results of `GetAvailableTechnologies`, the `TechnologyDatabaseComponent` lookup and the access-reader lookup, together with `IsAllowed`, become parameters of `UpdatePanels`.
- Enumeration order of the dictionary in the final removal loop: the model removes the stale cards in an unspecified order. The result does not depend on that order.
- ResearchConsole.ResearchConsoleMenu.SyncTechnologyList: a duplicate key makes the source throw part-way through. The model returns `ok = false` with the container unchanged, which matches the source because the throw happens before any card is added or removed.
- ResearchConsole.ResearchConsoleMenu.UpdatePanels: the two containers are modelled as distinct objects. Aliasing between the grid container and the card containers is not modelled.
- `Dispose` and `Close` of the news panel: the menu is never set back to null in the source, so the model has no closing transition. Window placement and event subscription in `Open` are not modelled.
- The news menu's `UpdateUI` rendering: the model records only the articles and share flag last handed to it (`shown`).
- `CCVars.NewsNameLimit` and `CCVars.NewsContentLimit`: the configuration reads become parameters of the share button.
- The content `Rope` and its null check: the content field is modelled as a plain string, and collapsing a rope never yields null here.
- Strings are sequences of Dafny characters. UTF-16 surrogate pairs, which `Length` and `Substring` count as two units, are not modelled.
- NewsWrite.NewsWriteBoundUserInterface.OnDeleteButtonPressed: the article number is an unbounded integer. The 32-bit range of the source's `int` is not modelled.
- `CameraFollowComponent` is not part of this model. It is an unrelated data component.
