# Smart farming AI agent — a verified model of its core

The system is a farming assistant: a Next.js frontend with a chat box, a
locale switcher for English, Hindi and Marathi, and a government-schemes
list, backed by a Rust service. The service's language module defines
three functions: one detects the language of a query, one adds dictionary
hints to a query, and one adds Hindi glosses after English farming words in
a reply. No request handler calls them: the `/chat` handler passes the
message to the language model unchanged.

This Dafny project models that core:

- `Chat` (chat.dfy): the current chat box's session engine. It covers the
  message log, the `loading` flag, the input and the locale. The welcome
  effect, the submission guard, the user turn and the request, the reply or
  localized error turn, and the confidence badge are all modelled. The
  asynchronous `sendMessage` is split into `Submit` (up to the remote call)
  and `Settle` (the call's completion).
- `LegacyChat` (legacy_chat.dfy): the earlier chat box. Its guard ignores
  `loading`, it always asks in English, and its failure text is fixed.
- `Markup` (markup.dfy): the chat markup. This is the lazy `**…**` bold
  replacement, `\n` to `<br/>`, and `formatMessage`'s per-line
  paragraph/list-item split with its bullet-marker strip.
- `I18n` (i18n.dfy): locale codes, the catalog lookup with its English
  fallback, and the locale preference in `localStorage`.
- `Page` (page.dfy): the home page's splash screen, the mount effect that
  adopts the stored locale, the locale change handler and the view dispatch.
- `Translator` (translator.dfy) with its tables in `Lexicon` (lexicon.dfy):
  `detect_language`, `translate_to_english` and `translate_from_english`.
- `Schemes` (schemes.dfy): the four scheme records and the search filter.
- `Text` (text.dfy) and `Wrappers` (wrappers.dfy): JavaScript's `trim`,
  `split` and `includes`, and `Option`.

The source's two `HashMap`s are iterated in an unspecified order. The model
therefore takes the iteration order as a parameter `order`. The lemmas state
what holds for every order that is a permutation of the table.

## Model

| member | source | states |
|---|---|---|
| Text.TrimEmptyIffBlank | frontend/src/components/ChatBox.tsx:42 | `trim()` yields the empty string exactly when the input is all white space or line terminators |
| Text.TrimStartsWithChar | frontend/src/components/ChatBox.tsx:94 | the trimmed line starts with `c` exactly when the first non-space character of the line is `c` |
| Text.ContainsIffOccurs | frontend/src/components/GovernmentSchemes.tsx:44 | `includes`/`contains` holds exactly when the needle occurs at some index of the haystack |
| Text.ContainsEmpty | frontend/src/components/GovernmentSchemes.tsx:44-45 | the empty search string is contained in every string |
| Text.JoinSplit | frontend/src/components/ChatBox.tsx:92 | joining the pieces of `split('\n')` with `\n` gives the content back |
| Text.SplitPieces | frontend/src/components/ChatBox.tsx:92 | `split` yields one more piece than there are separators, and no piece holds a separator |
| Markup.FindClose | frontend/src/components/ChatBox.tsx:93 | a close found by the lazy `(.*?)` is a `**` at or after the body's start |
| Markup.FindCloseFirst | frontend/src/components/ChatBox.tsx:93 | the lazy `(.*?)` closes at the first `**` after the opener; no pair and no line terminator lies before it; no close means every later pair is past a line break |
| Markup.UnparseSpans | frontend/src/components/ChatBox.tsx:161 | cutting a message into plain characters and bold spans loses and adds nothing |
| Markup.StrongBodies | frontend/src/components/ChatBox.tsx:161 | every bold body is the shortest match: it holds no `**` and no line terminator |
| Markup.SpansLeftmost | frontend/src/components/ChatBox.tsx:161 | the global replacement takes every match, leftmost first: each bold span is a `**` at its offset whose close is found on the same line, and each plain character sits at an offset where no `**` with a close on its line starts |
| Markup.TwoPairs | frontend/src/components/ChatBox.tsx:161 | two pairs on one line, with star-free text between them, are both replaced |
| Markup.OnlyMarkersReplaced | frontend/src/components/ChatBox.tsx:161 | the replacement touches only the matched pairs: with `**` as the replacement tags the message comes back unchanged |
| Markup.NoPairAllPlain | frontend/src/components/ChatBox.tsx:161 | a message with at most one `**` is cut into plain characters only |
| Markup.UnmatchedUnchanged | frontend/src/components/ChatBox.tsx:161 | an unmatched `**` stays literal: a message with at most one pair marker is unchanged by the bold replacement |
| Markup.SinglePair | frontend/src/components/ChatBox.tsx:161 | `**x**` with a star-free single-line `x` becomes the open tag, `x` and the close tag |
| Markup.PrefixThenPair | frontend/src/components/ChatBox.tsx:161 | star-free text before a pair is kept as is and the pair is replaced |
| Markup.FindCloseSkips | frontend/src/components/ChatBox.tsx:161 | the close is found at the first pair when only star-free, single-line text precedes it |
| Markup.WheatExample | frontend/src/components/ChatBox.tsx:161 | the bubble of `Try **wheat**` is `Try <strong>wheat</strong>` |
| Markup.SpansAcrossBreak | frontend/src/components/ChatBox.tsx:161 | no bold span crosses a `\n`: the spans of `a\nb` are those of `a`, the newline, then those of `b` |
| Markup.RenderBubbleAcrossBreak | frontend/src/components/ChatBox.tsx:161 | the bubble of `a\nb` is the bubble of `a`, `<br/>`, then the bubble of `b` |
| Markup.RenderBubbleNoNewline | frontend/src/components/ChatBox.tsx:161 | after the `<br/>` replacement no `\n` is left |
| Markup.BreakLinesNoNewline | frontend/src/components/ChatBox.tsx:161 | text without `\n` is unchanged by the `<br/>` replacement |
| Markup.RenderConcat | frontend/src/components/ChatBox.tsx:161 | rendering distributes over concatenation of span sequences |
| Markup.BreakLinesConcat | frontend/src/components/ChatBox.tsx:161 | the `<br/>` replacement distributes over concatenation |
| Markup.FormatMessage | frontend/src/components/ChatBox.tsx:91-98 | one block per line of `split('\n')`, so one more block than there are `\n`; block `i` is a list item exactly when line `i`'s first non-space character is `•` or `-` |
| Markup.ListItemIffBullet | frontend/src/components/ChatBox.tsx:94 | a line becomes a list item exactly when its first non-space character is `•` or `-` |
| Markup.RenderKeepsBulletFirst | frontend/src/components/ChatBox.tsx:93-94 | the bold replacement, done first, does not change whether the line starts with a bullet |
| Markup.MarkerAtColumnZero | frontend/src/components/ChatBox.tsx:95 | a marker at column zero is stripped with the white space after it |
| Markup.IndentedMarkerKept | frontend/src/components/ChatBox.tsx:94-95 | an indented marker makes a list item but is not stripped |
| Markup.PlainLineParagraph | frontend/src/components/ChatBox.tsx:97 | a line without bullet and without pair markers is a paragraph of the line as written |
| Markup.FormatSingleBold | frontend/src/components/ChatBox.tsx:93-97 | a single bold line becomes one paragraph with the formatted strong tag |
| I18n.ParseLocale | frontend/src/i18n/index.ts:5 | a parsed locale has exactly the given code |
| I18n.ParseCode | frontend/src/i18n/index.ts:7-11 | codes and locales correspond one to one |
| I18n.LocaleNamesComplete | frontend/src/i18n/index.ts:13-17 | every locale, and nothing else, has a display name |
| I18n.GetTranslationsTotal | frontend/src/i18n/index.ts:19-21 | a supported code gets its own catalog; a code that names no locale falls back to the English one (inherited object keys aside, see below) |
| I18n.StoreThenRead | frontend/src/i18n/index.ts:23-37 | with `window`, reading back a stored locale gives that locale |
| I18n.StoreTouchesOnlyKey | frontend/src/i18n/index.ts:33-37 | storing writes only the `locale` key, and nothing without `window` |
| I18n.NoWindowIgnoresStorage | frontend/src/i18n/index.ts:24 | without `window` the stored locale is English whatever the storage holds |
| I18n.Browser.GetStoredLocale | frontend/src/i18n/index.ts:23-31 | the stored code if it is `en`, `hi` or `mr`, otherwise English |
| I18n.Browser.SetStoredLocale | frontend/src/i18n/index.ts:33-37 | the new storage is the old one with `locale` set, and then reads back as that locale |
| Chat.AcceptsIff | frontend/src/components/ChatBox.tsx:42 | a submission is accepted exactly when the input is not blank and no call is in flight |
| Chat.BadgeTotal | frontend/src/components/ChatBox.tsx:72-89 | a badge exists exactly for a present confidence, with that level's label, and the three styles differ |
| Chat.ReplyShape | frontend/src/components/ChatBox.tsx:55-66 | the reply is a bot turn: the answer with its sources and confidence, or the catalog's error with low confidence and no sources |
| Chat.WelcomeBubble | frontend/src/components/ChatBox.tsx:28-32 | the welcome turn shows its title in bold, two line breaks, then the message |
| Chat.ChatBox.constructor | frontend/src/components/ChatBox.tsx:19-22 | the log is empty, the input blank, nothing loading |
| Chat.ChatBox.WelcomeEffect | frontend/src/components/ChatBox.tsx:26-34 | a welcome turn in the current locale is inserted only into an empty log |
| Chat.ChatBox.ChangeLocale | frontend/src/components/ChatBox.tsx:26-34 | the effect runs only when the locale changes, and adds the welcome turn only to an empty log |
| Chat.ChatBox.EditInput | frontend/src/components/ChatBox.tsx:194 | the input holds the typed text, and the session stays well formed |
| Chat.ChatBox.Submit | frontend/src/components/ChatBox.tsx:41-53 | a refused submission changes nothing; an accepted one appends the untrimmed user turn, clears the input, sets `loading` and sends the input with the locale's code; the log stays well formed |
| Chat.ChatBox.Settle | frontend/src/components/ChatBox.tsx:55-69 | the reply follows the user turn it answers and `loading` is cleared on both paths |
| LegacyChat.NoLoadingGuard | frontend/components/ChatBox.tsx:17 | non-blank input sent while loading is refused by the current chat box and accepted by the earlier one |
| LegacyChat.GuardsAgreeWhenIdle | frontend/components/ChatBox.tsx:17 | with nothing in flight the two guards agree |
| LegacyChat.LegacyChatBox.constructor | frontend/components/ChatBox.tsx:12-14 | empty log, blank input, nothing loading |
| LegacyChat.LegacyChatBox.EditInput | frontend/components/ChatBox.tsx:61 | the input holds the typed text, and the session stays well formed |
| LegacyChat.LegacyChatBox.Submit | frontend/components/ChatBox.tsx:16-26 | only blank input is refused; an accepted one appends the user turn, clears the input and always asks in `en` |
| LegacyChat.LegacyChatBox.Settle | frontend/components/ChatBox.tsx:27-32 | appends the response or the fixed failure text, and clears `loading` even while other calls are in flight |
| Page.RenderContentDispatch | frontend/src/app/page.tsx:41-102 | exactly the four known view ids render a view, each its own and in the current locale |
| Page.SplashIffUnmounted | frontend/src/app/page.tsx:33-39 | the splash is shown exactly while not mounted |
| Page.Home.constructor | frontend/src/app/page.tsx:13-15 | English, not mounted, the chat view |
| Page.Home.Shown | frontend/src/app/page.tsx:33-102 | the splash exactly until mounted, then the active view's content |
| Page.Home.MountEffect | frontend/src/app/page.tsx:17-24 | the locale becomes the stored one and the page is mounted; an equal locale is left as is |
| Page.Home.HandleLocaleChange | frontend/src/app/page.tsx:26-29 | the locale is set in memory and in storage, where it reads back when `window` exists |
| Page.Home.SelectLocale | frontend/src/app/page.tsx:17-29 | a picked locale is stored and, with `window`, survives the effect it triggers |
| Page.Home.SetActiveView | frontend/src/app/page.tsx:15 | the active view is the one picked |
| Translator.CountPresent | backend/src/services/translator.rs:31-37 | the marker count never exceeds the list length and is zero when no marker occurs |
| Translator.CountIsPresentIndices | backend/src/services/translator.rs:31-37 | the count is the number of list positions whose marker occurs in the text |
| Translator.CountIsDistinctMarkers | backend/src/services/translator.rs:31-37 | for a list without duplicates, the count is the number of distinct markers present |
| Translator.HindiMarkersDistinct | backend/src/services/translator.rs:8-12 | the Hindi marker list holds no duplicates |
| Translator.MarathiMarkersDistinct | backend/src/services/translator.rs:15-19 | the Marathi marker list holds no duplicates |
| Translator.SharedMarkers | backend/src/services/translator.rs:8-19 | `आज`, `भाव` and `रोग` are in both lists and count for both languages together |
| Translator.DetectLanguage | backend/src/services/translator.rs:22-49 | `en` exactly without Devanagari; `mr` exactly with Devanagari and more Marathi than Hindi markers; `hi` exactly for the remaining Devanagari text |
| Translator.HindiExampleCount | backend/src/services/translator.rs:154 | at least five Hindi markers occur in the Hindi test sentence |
| Translator.MarathiExampleCount | backend/src/services/translator.rs:154 | at most four Marathi markers occur in the Hindi test sentence |
| Translator.DetectHindiExample | backend/src/services/translator.rs:153-155 | the Hindi test sentence is detected as `hi` |
| Translator.EnglishExampleLatin | backend/src/services/translator.rs:159 | the English test sentence holds no Devanagari character |
| Translator.DetectEnglishExample | backend/src/services/translator.rs:158-160 | the English test sentence is detected as `en` |
| Translator.Present | backend/src/services/translator.rs:113-117 | the hinted entries are exactly the entries whose Hindi key occurs in the text |
| Translator.TranslateToEnglish | backend/src/services/translator.rs:106-121 | the prefix, the text unchanged, one ` [hindi=english]` hint per entry whose key occurs (in iteration order), then the suffix |
| Translator.AnnotationsSnoc | backend/src/services/translator.rs:115 | one more hinted entry appends exactly its hint |
| Translator.PresentMultiplicity | backend/src/services/translator.rs:113-117 | each entry is hinted as often as it is iterated when its key occurs, else never |
| Translator.PresentOrderIndependent | backend/src/services/translator.rs:113 | any two iteration orders of the table give the same hints, up to order |
| Translator.PresentOfPermutation | backend/src/services/translator.rs:113-117 | whatever the iteration order, the hints are those of the table entries whose key occurs |
| Translator.NoKeyNoHints | backend/src/services/translator.rs:110-120 | text with no dictionary key gets no hints: prefix, text and suffix only |
| Translator.FoldEqIff | backend/src/services/translator.rs:136 | `(?i)` agreement holds exactly when the lengths agree and the folded characters agree at every index |
| Translator.Scan | backend/src/services/translator.rs:136-140 | every tagged word equals the English key up to case |
| Translator.ScanPieces | backend/src/services/translator.rs:136-140 | scanning left to right, every piece sits at its offset in the text: a tagged piece is a case-insensitive whole-word match of the key there, and a kept character sits where no such match starts |
| Translator.WordGlossed | backend/src/services/translator.rs:136-140 | a text that is one whole word matching the key becomes `word (gloss)` |
| Translator.ScanUnparse | backend/src/services/translator.rs:138-140 | cutting the text at the matches loses and adds nothing |
| Translator.RenderCoversUnparse | backend/src/services/translator.rs:138-140 | glossing never shortens the text, and with no match it changes nothing |
| Translator.ScanNoMatch | backend/src/services/translator.rs:136-140 | without a whole-word match the text is cut into kept characters only |
| Translator.GlossTermInserts | backend/src/services/translator.rs:136-140 | one pass keeps the text around the matches, never shortens it, and leaves a text without a match unchanged |
| Translator.GlossAllLonger | backend/src/services/translator.rs:131-145 | glossing with every entry never shortens the reply |
| Translator.GlossAllNoMatch | backend/src/services/translator.rs:131-145 | a reply that contains no dictionary word is returned unchanged |
| Translator.EnglishKeysNonEmpty | backend/src/services/translator.rs:77-101 | every English key is a non-empty word, so every pattern has a word to match |
| Translator.TranslateFromEnglish | backend/src/services/translator.rs:125-146 | `hi` and `mr` get one gloss pass per entry in iteration order; every other target gets the text unchanged |
| Schemes.Filter | frontend/src/components/GovernmentSchemes.tsx:43-46 | a scheme is kept exactly when its lower-cased title or category contains the lower-cased term; never more than the input |
| Schemes.FilterSubsequence | frontend/src/components/GovernmentSchemes.tsx:43 | the kept schemes appear in their original order |
| Schemes.EmptyTermKeepsAll | frontend/src/components/GovernmentSchemes.tsx:43-46 | the empty search keeps every scheme |
| Schemes.SameLowercaseSameResult | frontend/src/components/GovernmentSchemes.tsx:44-45 | terms that lower-case alike give the same list |
| Schemes.LowercaseTermInvariant | frontend/src/components/GovernmentSchemes.tsx:44-45 | for an idempotent lower-casing, searching the lower-cased term gives the same list as the term |
| Schemes.FilteredBounds | frontend/src/components/GovernmentSchemes.tsx:13-46 | at most the four schemes, in their order, and all four for the empty search |

## Left out

- The network call `sendChatMessage` / `chat` (api.ts) is not part of this model. Its result enters as the `Outcome` / `LegacyOutcome` parameter of `Settle`, and a rejection of any kind is `Failed`.
- React's scheduling is not modelled: batching of state updates, stale closures and re-renders. `Settle` reads the catalog of the locale current when the call settles. The source's closure would use the locale of the render that issued the call.
- Auto-scroll (`scrollIntoView`), the suggestion cards' layout, the sidebar's markup and all styling are not modelled, beyond the badge's style tokens.
- The condition under which the badge and sources row is shown (ChatBox.tsx:165) is presentation only and is left out.
- JavaScript strings are UTF-16 code units. The model works on Unicode scalar values, which agree with them for every character of the tables and the test sentences.
- Case-folding and lower-casing are parameters (`fold`, `lower`), as is the regex crate's word-character test (`isWord`). Unicode's case tables are not modelled. `toLowerCase` is modelled per character, so length-changing lower-casings are left out.
- `HashMap` iteration order is a parameter `order`. `TranslateToEnglish` and `TranslateFromEnglish` are proved for any order. Permutation lemmas state what is independent of it.
- Translator.TranslateFromEnglish: `Regex::new` is taken to succeed for every dictionary word. The `if let Ok` failure branch is not modelled; all the words are plain ASCII letters.
- The `chat_handler` and `translate_handler` request handlers (backend/src/api/) are not part of this model. Neither calls the language module's functions, so the model covers those functions on their own.
- The `debug!` log line in `detect_language` is left out as I/O.
- The contents of the JSON catalogs are not modelled. A catalog is a record of the strings the core reads.
- Exceptions thrown by `localStorage` (private browsing, quota) are left out; the source does not catch them either.
- Remounting the chat box when the active view changes is not modelled. A fresh `ChatBox` is a new object built by the constructor.
- `formatMessage` is modelled as written, although the bubble at line 161 does not call it.
- The bold replacement runs before the bullet test, the marker is stripped only at column zero, and the produced HTML is not escaped, as in the code.
- I18n.GetTranslations: the lookup `locales[locale]` on a plain object would also find names inherited from `Object.prototype` (`toString`, `__proto__`, …) for an untyped string. The model treats every code other than `en`, `hi` and `mr` as absent, so it falls back to English. The source's callers pass only a typed `Locale`.
- An unmatched `**` is left literal, as the regex does (Markup.UnmatchedUnchanged).
