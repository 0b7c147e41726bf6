# URL category action changer: the decision logic, modelled in Dafny

`modify-url-category-actions.py` is a console script for a Panorama
controller that changes the action a URL filtering profile takes for one URL
category. It asks for a controller address and credentials, for a device
group, for a list of URL filtering profiles, for a category and for an action.
For each chosen profile it then rewrites the profile's XML entry and pushes it
back. This project models the script's decision logic and proves properties
of it:

- **Profile selection** (`SelectionGrammar`, `ProfileSelection`,
  `SelectionFacts`, `SelectionExamples`, `ProfilePrompt`):
  - the format check on the operator's answer;
  - the "all profiles" shortcut;
  - `splitUrlProfileEntries`, which turns an answer such as `1, 3, 5-9, 11`
    into a list of profiles.

  `ProfileSelection.SplitUrlProfileEntries` follows the source loop by loop and
  is proved equal to the declarative specification `ProfileSelection.SplitSpec`.
  The properties are proved about that specification.
- **The profile entry rewrite** (`ElementTree`, `UrlFilteringFragment`). This is
  the tree edit of `getUrlProfileElements`:
  1. drop the credential-enforcement child;
  2. remove the category's current `member`;
  3. make sure the action's list exists and append the category to it;
  4. compact the serialized text onto one line.

  The XML tree is a datatype of elements, and the serializer is a parameter.
- **Custom categories** (`CustomCategories`). Custom names are marked with
  `" *"`, merged sorted and without repeats, and the chosen name is unmarked
  again.
- **Input checks** (`Validators`). These are the IPv4 address, host name and
  user name patterns, with `\d` and `\w` restricted to ASCII.

The other modules hold shared material:

- `Wrappers`: Option and Result;
- `Text`: Python's whitespace table (the one `\s` and `str.strip()` use, Unicode spaces included), split/join, and Python's `int()`/`str()` on ASCII digits;
- `Lists`: a mapping that can fail, and sorting without repeats.

Python's exceptions and `None` returns become `Err` values:

- a `ValueError` from `int()` is `ConversionError`;
- an `IndexError` is `IndexError`;
- the two `None` returns are `InvertedRange` and `OutOfRange`;
- the `AttributeError` on a missing `entry` is `NoEntry`;
- the `TypeError` on a category without a name is `MissingName`.

Where the code and its prompt text differ, the model follows the code:

- Number 0 passes every check. Python's `profileList[-1]` then selects the last
  profile.
- Python's `$` also matches just before a final newline, so every pattern
  accepts one trailing `"\n"`.

## Model

| member | source | states |
|---|---|---|
| ProfileSelection.SplitSpec | modify-url-category-actions.py:122-162 | The declarative outcome of an answer: a conversion error if int() refuses some token; else the last inverted range written; else out of range if a selected number exceeds the profile count; else an IndexError on an empty list; else profile i for each selected i, ascending. SplitUrlProfileEntries is proved equal to it, and the SelectionFacts lemmas state its properties. |
| ProfileSelection.ParseToken | modify-url-category-actions.py:127-133 | A token holding '-' is split on '-' and every piece converted, the first two giving the range; a token without '-' is converted whole. NumberToken, RangeToken and OneBadTokenSpoilsAll give its value. |
| ProfileSelection.PyIndex | modify-url-category-actions.py:151 | Python's `xs[j]` for `-len(xs) <= j < len(xs)`: a negative index counts from the end. ZeroSelectsLastProfile and ChooseZeroIsLast use it for index 0 - 1. |
| ProfileSelection.SplitUrlProfileEntries | modify-url-category-actions.py:122-162 | The loop-by-loop reading of the answer gives exactly `SplitSpec`: a conversion error, the last inverted range, out of range, an IndexError on an empty list, or the chosen profiles. |
| ProfileSelection.PartitionTokens | modify-url-category-actions.py:124-129 | Removing range tokens from a copy while appending them to the range list leaves the single tokens in order and the range tokens in order. |
| ProfileSelection.ExpandRanges | modify-url-category-actions.py:131-139 | The ranges convert exactly when every range token converts. `rangeCheck` is false exactly when some range is inverted, and then `badRange` holds the last one. The collected numbers are the singles plus every number some range covers. |
| ProfileSelection.AppendRange | modify-url-category-actions.py:137-139 | The numbers low..high are appended; none when low > high. |
| ProfileSelection.PickProfiles | modify-url-category-actions.py:149-151 | Each index i maps to `profileList[i - 1]` (Python indexing), in order; an empty profile list raises IndexError. |
| ProfileSelection.SpecOfSorted | modify-url-category-actions.py:143-151 | Only the largest selected number is compared with the profile count. If it is within range, every number is. |
| ProfileSelection.SortedIsAscending | modify-url-category-actions.py:140-142 | Sorting and dropping repeats gives every covered number once, in ascending order. |
| ProfileSelection.ParseByKind | modify-url-category-actions.py:126-139 | Converting the singles first and the ranges after gives the same conversions, the same last inverted range and the same covered numbers as reading the tokens in written order. |
| ProfileSelection.LastInverted | modify-url-category-actions.py:132-136 | The reported range is inverted, and no later token is inverted. It is absent exactly when no token is inverted. |
| ProfileSelection.Ascending | modify-url-category-actions.py:137-142 | The selected numbers are strictly ascending, and a number is in the list exactly when some token covers it. |
| ProfileSelection.CoveredBetween | modify-url-category-actions.py:137-142 | The numbers in lo..hi that some token covers, strictly ascending, and no others. |
| ProfileSelection.SomethingSelected | modify-url-category-actions.py:143-145 | A non-empty answer without inverted ranges selects at least one number, so the last-element check of line 145 never indexes an empty list. |
| ProfileSelection.SingleStrings | modify-url-category-actions.py:126-129 | The tokens left after the loop are exactly the tokens without a '-'. |
| ProfileSelection.RangeStrings | modify-url-category-actions.py:126-128 | The range list holds exactly the tokens with a '-'. |
| ProfileSelection.OneBadTokenSpoilsAll | modify-url-category-actions.py:130-133 | One token that int() refuses makes the whole conversion fail. |
| SelectionFacts.NumberToken | modify-url-category-actions.py:127-130 | A digit string is read as the single number it denotes. |
| SelectionFacts.RangeToken | modify-url-category-actions.py:127-133 | Two digit strings joined by '-' are read as the range between their values. |
| SelectionFacts.AcceptedAnswerConverts | modify-url-category-actions.py:123-133 | No int() conversion raises on an answer that the format check of line 192 accepts. |
| SelectionFacts.AcceptedAnswerNeverRaises | modify-url-category-actions.py:192-197 | With profiles to choose from, an accepted answer either selects profiles or is refused as an inverted range or out of range. |
| SelectionFacts.SelectionDependsOnlyOnCoveredNumbers | modify-url-category-actions.py:137-151 | Two answers without inverted ranges that cover the same numbers select the same profiles, whatever their order, repetition or overlap. |
| SelectionFacts.SelectedProfilesAreDistinct | modify-url-category-actions.py:140-151 | With distinct profile names and no 0 selected, no profile is chosen twice. |
| SelectionFacts.WhitespaceIsIgnored | modify-url-category-actions.py:123 | Whitespace anywhere in the answer does not change the outcome. |
| SelectionFacts.SpecOfTokens | modify-url-category-actions.py:123-133 | An answer written as whitespace-free tokens joined by commas selects what those tokens select. |
| SelectionFacts.SingleSelection | modify-url-category-actions.py:143-151 | A single number n selects profile n. It is out of range above the count, and raises IndexError on an empty list. |
| SelectionFacts.SingleNumberSelection | modify-url-category-actions.py:123-151 | A lone numeral for n selects profile n, or reports out of range, or raises IndexError on an empty list. |
| SelectionFacts.ZeroSelectsLastProfile | modify-url-category-actions.py:145-151 | An answer of zeros passes the bound check and selects the last profile. |
| SelectionFacts.AllChoiceIsOutOfRangeAsSelection | modify-url-category-actions.py:184-195 | The number one past the last profile would be out of range as a selection. Only the test of line 184 makes it mean "all". |
| SelectionExamples.Shuffled | modify-url-category-actions.py:137-151 | "3,1,2" picks the first three profiles, or is out of range with fewer than three. |
| SelectionExamples.AsRange | modify-url-category-actions.py:137-151 | "1-3" gives the same outcome as "3,1,2". |
| SelectionExamples.Overlapping | modify-url-category-actions.py:137-151 | "1,1-3,2" gives the same outcome, each profile once. |
| SelectionExamples.Repeated | modify-url-category-actions.py:137-151 | "2-3,1,1" gives the same outcome, each profile once. |
| SelectionExamples.PastTheEnd | modify-url-category-actions.py:143-147 | "1, 3, 5-9, 11" is out of range with fewer than 11 profiles. |
| SelectionExamples.LastInvertedIsReported | modify-url-category-actions.py:132-136 | "2-1,3,5-4" selects nothing and reports 5-4, the last inverted range. |
| SelectionGrammar.IsSelectionFormat | modify-url-category-actions.py:192 | `re.match` with the pattern of line 192: comma-separated pieces, each 1-5 digits or two such numbers around a '-'. Whitespace may stand around each comma and each '-'. At the very end it may follow only a single number in a later piece. One final newline is allowed. AcceptedAnswerHasCleanTokens, TokenBecomesClean and SeparatorBeforeNumberIsFormatError state what it accepts and refuses. |
| SelectionGrammar.AcceptedAnswerHasCleanTokens | modify-url-category-actions.py:192 | Every answer the format check accepts becomes digit strings or digits-dash-digits, once whitespace is removed and the answer is split on ','. |
| SelectionGrammar.DigitPrefixLength | modify-url-category-actions.py:192 | The longest run of leading digits: all digits, and followed by a non-digit or the end. |
| SelectionGrammar.TokenBecomesClean | modify-url-category-actions.py:192 | A number or a range, with whitespace around its '-', becomes a clean token once whitespace is removed. |
| ProfilePrompt.ChooseProfiles | modify-url-category-actions.py:172-197 | With no profiles there is no choice. The answer n + 1 selects every profile, in order, with the all flag set, and it is the only answer that does. Otherwise an answer that fails the format check is refused. An accepted answer gives `SplitSpec`'s profiles, or is refused only as an inverted range or out of range. |
| ProfilePrompt.SeparatorBeforeNumberIsFormatError | modify-url-category-actions.py:184-199 | A separator U+001C-U+001F followed by digits is not the "all" number, because int() refuses it. The format check also refuses it, so the prompt asks again. |
| Text.RemoveWhitespace | modify-url-category-actions.py:123 | `re.sub(r'\s+', '', s)` over Python's whitespace table. The result has no whitespace, is no longer than the input, and holds only characters of the input. RemoveWhitespaceConcat, RemoveWhitespaceKeeps and RemoveWhitespaceErases state that it deletes exactly the whitespace and keeps every other character in order. |
| Text.Split | modify-url-category-actions.py:123 | `s.split(sep)`: at least one piece, and no piece holds the separator. JoinSplit and SplitJoin make it the inverse of Join. |
| Text.Join | modify-url-category-actions.py:123 | `sep.join(parts)`, the inverse of the split of line 123 by JoinSplit and SplitJoin. The lemmas use it to write answers and addresses. |
| Text.SplitJoin | modify-url-category-actions.py:123 | Splitting a join of separator-free pieces gives the pieces back. |
| Text.JoinSplit | modify-url-category-actions.py:123 | Joining the pieces of a split gives the string back. |
| Text.SplitRemoveWhitespace | modify-url-category-actions.py:123 | Removing whitespace and then splitting on a non-space separator equals splitting and then removing whitespace from each piece. |
| Text.NatToString | modify-url-category-actions.py:136 | `str(n)` is a non-empty digit string of value n, without leading zeros. |
| Text.DigitsAreUnsignedLiteral | modify-url-category-actions.py:130 | int() reads a non-empty digit string as its decimal value. |
| Text.UnsignedLiteralOfNatToString | modify-url-category-actions.py:130 | `int(str(n)) == n`. |
| Text.IntStrip | modify-url-category-actions.py:130 | The characters int() skips at either end are removed. IntStripPadding shows that such padding around a core is removed exactly, and nothing inside the core. |
| Text.IntStripPadding | modify-url-category-actions.py:130 | Padding made of characters int() skips, on both sides of a core that neither starts nor ends with one, is removed, and the core is kept as it is. |
| Text.UnsignedLiteral | modify-url-category-actions.py:130 | int() on a token without '-': the padding int() skips, an optional '+', then digits with single underscores between them. Anything else is None, the ValueError. DigitsAreUnsignedLiteral, UnsignedLiteralOfNatToString and PaddedNumber give its value. |
| Text.IntLiteral | modify-url-category-actions.py:184 | int() with an optional sign. PaddedNumber, SeparatorBeforeNumberIsRefused and SeparatorAfterNumberIsRefused state which padded digit strings it reads and which it refuses. |
| Text.PaddedNumber | modify-url-category-actions.py:184 | A digit string padded on both sides with characters int() skips reads as its decimal value. Those characters include ASCII spaces, tabs and line breaks and non-ASCII spaces such as U+00A0. |
| Text.SeparatorBeforeNumberIsRefused | modify-url-category-actions.py:184 | A separator U+001C-U+001F just before the digits makes int() raise, though `str.strip()` would remove it. |
| Text.SeparatorAfterNumberIsRefused | modify-url-category-actions.py:184 | A separator U+001C-U+001F just after the digits makes int() raise. |
| Lists.RemoveFirst | modify-url-category-actions.py:129 | `list.remove(x)` for an x in the list: one element shorter, with one occurrence of x fewer and every other element kept (as a multiset). RemoveFirstSkipsPrefix says that the first occurrence is the one removed. |
| Lists.MapAll | modify-url-category-actions.py:130 | `list(map(int, xs))` succeeds exactly when every element converts, and then holds each conversion in place. |
| Lists.SortedDistinct | modify-url-category-actions.py:140-142 | The result is strictly sorted and holds exactly the input's elements. |
| ElementTree.FindChild | modify-url-category-actions.py:265 | `find(tag)` gives the first direct child with the tag, or none when no child has it. |
| ElementTree.FindDescendant | modify-url-category-actions.py:264 | `find('.//entry')` gives the first element with the tag in document order, below the starting element. |
| ElementTree.RemoveFirstMember | modify-url-category-actions.py:268-271 | A member is removed exactly when the tree holds a member with the category's text. Otherwise the tree is unchanged. |
| ElementTree.RemoveFirstMemberOutline | modify-url-category-actions.py:268-271 | The removed subtree is the first matching member in document order. Every other node keeps its content, its depth and its order. |
| ElementTree.RemoveFirstMemberCounts | modify-url-category-actions.py:268-271 | When members are leaves, exactly one matching member disappears. |
| ElementTree.RemoveFirstMemberKeepsChildTags | modify-url-category-actions.py:268-271 | Among the direct children, only a `member` can disappear. |
| ElementTree.MatchesFindFirstMember | modify-url-category-actions.py:269-270 | The tree holds a matching member exactly when one turns up in document order. |
| ElementTree.RemoveFirstMemberUndoesAppend | modify-url-category-actions.py:268-277 | Removal takes back a member that was just appended to a tree without one. |
| ElementTree.TextContent | modify-url-category-actions.py:268 | The string value that `[.='cat']` compares: the element's text, then its descendants' text and tails, in document order. Member(cat) has text content cat. |
| ElementTree.Member | modify-url-category-actions.py:276-277 | The new child is a `member` leaf whose text is the category. |
| UrlFilteringFragment.DropCredentialEnforcement | modify-url-category-actions.py:265-266 | The first credential-enforcement child is removed, and nothing else changes. The entry has one fewer such child if it had one, and is unchanged if it had none. |
| UrlFilteringFragment.RemoveCategoryMember | modify-url-category-actions.py:268-271 | Only the children change, and not at all without a match. |
| UrlFilteringFragment.EnsureActionChild | modify-url-category-actions.py:273-274 | An existing action child is kept. Otherwise an empty one is appended at the end and becomes the one found. Either way one exists afterwards. |
| UrlFilteringFragment.AddCategoryMember | modify-url-category-actions.py:275-277 | The category member is appended to the first action child, and every other child is unchanged. |
| UrlFilteringFragment.Compact | modify-url-category-actions.py:280 | The result has no line break and keeps the same non-whitespace text. Text without line breaks is unchanged. |
| UrlFilteringFragment.CompactKeepsLine | modify-url-category-actions.py:280 | Text before the first line break is copied unchanged. |
| UrlFilteringFragment.CompactDropsBreak | modify-url-category-actions.py:280 | A line break and the whitespace after it vanish. |
| UrlFilteringFragment.UpdateEntry | modify-url-category-actions.py:265-277 | The four steps in the script's order. UpdateEntryChildTags, UpdateEntryMatches, UpdateEntryAddsMember and UpdateEntryIdempotent state what it does. |
| UrlFilteringFragment.UpdateEntryChildTags | modify-url-category-actions.py:265-277 | One fewer credential-enforcement child if there was one, an action child if there was none, and no other direct-child tag count changes (except `member`). |
| UrlFilteringFragment.UpdateEntryMatches | modify-url-category-actions.py:268-277 | When members are leaves, one matching member is taken away if there was one, and exactly one is added. |
| UrlFilteringFragment.UpdateEntryAddsMember | modify-url-category-actions.py:273-277 | The first action child ends with the new member. Without one before, it is a new last child holding only that member. |
| UrlFilteringFragment.UpdateEntryIdempotent | modify-url-category-actions.py:264-277 | A second run changes nothing, given at most one credential-enforcement child, at most one occurrence of the category, leaf members and a plain action name. |
| UrlFilteringFragment.GetUrlProfileElements | modify-url-category-actions.py:264-281 | Without an `entry` the result is the missing-entry error. Otherwise it is the compacted serialization of the rewritten entry, with no line break. |
| CustomCategories.Mark | modify-url-category-actions.py:225 | `entry.get('name') + ' *'`: a name gets the marker appended, and a missing name is None, the TypeError. CustomUrlCategories and CustomEntryIsMarkedName state the list built from it. StripMarkersDropsSuffix undoes it. |
| CustomCategories.CustomUrlCategories | modify-url-category-actions.py:219-237 | There is an error exactly when some fetched category has no name. Otherwise the list is strictly sorted, and holds exactly the fetched names with " *" appended. |
| CustomCategories.StrLessIsStrictTotalOrder | modify-url-category-actions.py:237 | Python's string `<` is a strict total order, so sorting without repeats is well defined. |
| CustomCategories.StripMarkers | modify-url-category-actions.py:253 | `.replace(' *', '')`. Removing the markers never lengthens a name. StripMarkersKeeps and StripMarkersDropsSuffix state that a name without a marker is kept and that an appended marker is removed. |
| CustomCategories.StripMarkersKeeps | modify-url-category-actions.py:253 | Removing the markers leaves a string unchanged exactly when it holds no " *". |
| CustomCategories.StripMarkersDropsSuffix | modify-url-category-actions.py:253 | The marker appended at lines 225-236 is always removed again. |
| CustomCategories.UnmarkedName | modify-url-category-actions.py:253 | A name marked at lines 225-236 comes back as the name exactly when the name holds no " *". |
| CustomCategories.ChooseUrlCat | modify-url-category-actions.py:252-253 | An answer picks a category exactly when int() reads it and the number minus one is a valid Python index. |
| CustomCategories.SeparatorBeforeNumberAsksAgain | modify-url-category-actions.py:252-255 | An answer of a separator U+001C-U+001F followed by digits picks nothing: int() raises and the except branch asks again. |
| CustomCategories.ChooseShownNumber | modify-url-category-actions.py:245-253 | Answering the number shown beside an entry picks that entry, unmarked. |
| CustomCategories.ChooseZeroIsLast | modify-url-category-actions.py:252-253 | The answer "0" picks the last entry. |
| CustomCategories.CustomEntryIsMarkedName | modify-url-category-actions.py:224-237 | Every custom entry is a fetched name with the marker appended. |
| CustomCategories.ChooseCustomCategory | modify-url-category-actions.py:252-253 | Choosing a custom entry in the merged list gives back a fetched name, when no name holds a marker. |
| Validators.IsIpv4Address | modify-url-category-actions.py:41 | `re.match` with the IPv4 pattern: four octets joined by dots, with an optional final newline. OctetIsByte, DottedQuadIsAccepted and AcceptedAddressIsDottedQuad state it in both directions. |
| Validators.IsHostName | modify-url-category-actions.py:42 | `re.match` with the host-name pattern: labels each followed by a dot, then a 2-63 letter final label, 4-253 characters in all, with an optional final newline. LabelsAreHostName states what it accepts. |
| Validators.IsControllerAddress | modify-url-category-actions.py:39-47 | The loop ends on an answer that passes either check. ControllerAddressIsOneKind states that it passes exactly one. |
| Validators.ControllerAddressIsOneKind | modify-url-category-actions.py:39-47 | An answer that ends the loop is an IPv4 address or a host name, never both, so exactly one of the two branches of lines 42-45 is taken. |
| Validators.OctetIsByte | modify-url-category-actions.py:41 | An octet pattern accepts exactly 1-3 digits of value at most 255, leading zeros included. |
| Validators.DottedQuadIsAccepted | modify-url-category-actions.py:41 | Four numbers 0-255 in decimal, joined by dots, are accepted. |
| Validators.AcceptedAddressIsDottedQuad | modify-url-category-actions.py:41 | An accepted address, without its optional final newline, is four pieces of 1-3 digits and value at most 255, joined by dots. |
| Validators.LabelsAreHostName | modify-url-category-actions.py:42 | Valid labels and a final letters-only label, joined by dots with total length 4-253, are accepted. |
| Validators.AddressIsNotHostName | modify-url-category-actions.py:41-46 | No string matches both the address pattern and the host name pattern. |
| Validators.IsUserName | modify-url-category-actions.py:56 | `re.match` with the user-name pattern: 3-24 characters from `[\w-]`, with an optional final newline. UserNameIsUnreserved states what it admits. |
| Validators.UserNameIsUnreserved | modify-url-category-actions.py:56 | An accepted user name has 3-24 characters, all unreserved in a URL (section 2.3 of RFC 3986), so the key request URL of line 71 needs no escaping. |

## Left out

- Network calls, the key exchange and API status checks are left out, and so is the edit call that pushes the entry. They are remote I/O. The model starts from their results: profile names, category names, the fetched element.
- Console input and output are left out: `input`, `getpass`, every `print`, `time.sleep`, `exit`, the menus and the run-again loop of `main`. The retry loops of getfwipfqdn, getCreds, getUrlProfiles and chooseUrlCat are modelled as one answer each. The predicates say which answer ends the loop.
- The profile list fetch of lines 167-171, the predefined category fetch of lines 210-215 and their sorting are I/O. CustomUrlCategories takes the fetched name attributes as its input.
- ProfileSelection.SplitSpec: line 142 turns the sorted list into a set and back. Python does not promise an ascending order for that. The model assumes the ascending order the code evidently intends. Line 145 looks only at the last element of that list.
- The chooseUrlAction menu and the list of five actions are not modelled. The action reaches the fragment as a plain tag name.
- ElementTree parsing and `tostring` are library code. `tostring` is the `serialize` parameter of GetUrlProfileElements. The XPath engine is replaced by the `find`, `remove` and `SubElement` semantics the script relies on.
- A category name containing a quote would break the XPath of line 268. The model matches the name as plain text.
- UrlFilteringFragment.GetUrlProfileElements rebuilds the entry as a value. The in-place mutation of the fetched tree is not modelled, nor is its aliasing with the document.
- UrlFilteringFragment.UpdateEntryIdempotent and ElementTree.RemoveFirstMemberCounts assume that `member` elements have no children, which is the controller's format. With nested members the count can drop by more than one.
- Validators: `\d` and `\w` are taken as their ASCII classes. Python's Unicode-aware classes also admit non-ASCII digits and letters. `\s` does not occur in these patterns. The lookahead and lookbehind of line 42 are stated directly as length and first/last-character rules.
- Text.IntLiteral reads ASCII digits only. int() also accepts any Unicode decimal digit (category Nd), which the model refuses. The whitespace it skips is modelled in full: Python's whitespace table without U+001C-U+001F.
- Text.UnsignedLiteral: ASCII digits only, as for Text.IntLiteral.
- SelectionGrammar.IsSelectionFormat takes `\d` as ASCII digits. Python's `\d` in a str pattern also matches other Unicode decimal digits. Its `\s` is Python's full whitespace table.
- SelectionGrammar.AcceptedAnswerHasCleanTokens talks about ASCII digit strings only, because IsSelectionFormat takes `\d` as ASCII.
- ProfilePrompt.ChooseProfiles inherits the ASCII `\d` of IsSelectionFormat and the ASCII digits of Text.IntLiteral. An answer written in non-ASCII digits is refused by the model but may be accepted by Python.
- CustomCategories.ChooseUrlCat inherits the ASCII digits of Text.IntLiteral.
