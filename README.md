# Pizza ordering frontend: order summary and registration checks, in Dafny

This project models the two pieces of logic in the pizza-ordering web
frontend that compute something. Everything else in the frontend renders
pages, talks to the network or logs.

- **Order card summary** (`myordercard.dfy`, module `MyOrderCard`). The card
  for a past order lists each pizza name once with how many of it the order
  holds. It walks the order's pizzas once and counts them in a JavaScript
  `Map`. It then lists the map's entries. A `Map` keeps its keys in insertion
  order, so names appear in the order they first occur.
  - `CountPizzas` is that loop. The `Map` is a key sequence in insertion order
    plus a `map` of counts.
  - It is proved equal to the specification function `Aggregate`.
  - `Aggregate` is proved to satisfy, and to be the only list satisfying, a
    characterization written without reference to the loop (`IsCountSummary`):
    every input name and no other is listed, each with its multiplicity, in
    first-occurrence order.
  - The counts add up to the number of pizzas.
- **Registration checks** (`register_patterns.dfy`, module `RegisterPatterns`,
  and `register.dfy`, module `Register`).
  - The three patterns for names, passwords and e-mail addresses are written
    as predicates over characters.
  - The password pattern is read construct by construct, lookaheads included.
    A lemma proves it equals the rule in words.
  - The e-mail pattern has two forms. One is the language it denotes: a local
    part, `@`, then dot-joined labels. The other is a test that splits at the
    first `@` and cuts the domain at its dots. They are proved to accept the
    same strings.
  - `HandleClick` is the submit decision. It reports the first failing rule in
    the order last name, first name, e-mail, password, confirmation. Only when
    every rule passes does it build the request body, which never includes the
    confirmation.

`sequences.dfy` (module `Sequences`) holds `IndexOf`, the first position of an
element, which both parts use.

Two consequences of the patterns as written:
- The name pattern at `src/pages/login-register/Register.tsx:43` admits only
  ASCII letters and the 18 accented Hungarian letters `ÁÉÍÓÖŐÚÜŰáéíóöőúüű`, not
  every Unicode letter.
- `abcdefg1` has 8 characters, and the pattern at `Register.tsx:40` accepts it
  (`PasswordAcceptsExample`).

The patterns have no `u` flag, so JavaScript matches them against UTF-16 code
units. The model matches them against Unicode characters. Every character
class involved lies in the Basic Multilingual Plane. Any other character is a
surrogate pair that no class admits, so both readings accept the same strings.

## Model

| member | source | states |
|---|---|---|
| `MyOrderCard.CountPizzas` | src/components/myordercard/MyOrderCard.tsx:28-40 | the counting loop with its insertion-ordered map returns exactly `Aggregate(pizzas)` |
| `MyOrderCard.Aggregate` | src/components/myordercard/MyOrderCard.tsx:29-38 | the list of `PizzaCount` lines (name and count, the record at MyOrderCard.tsx:15-18) is empty exactly when the order is; no name is listed twice; every listed name occurs in the order and has count at least 1 |
| `MyOrderCard.Distinct` | src/components/myordercard/MyOrderCard.tsx:33-35 | the map's keys hold exactly the names of the order, each once, and never more keys than pizzas |
| `MyOrderCard.TallyKnownName` | src/components/myordercard/MyOrderCard.tsx:31-33 | for a name already in the map, `get` returns its count, which is at least 1, so the fallback to 0 never fires; `set` to count + 1 keeps the map a tally of the longer prefix |
| `MyOrderCard.TallyNewName` | src/components/myordercard/MyOrderCard.tsx:31-33 | for a new name, `get` falls back to 0 and `set` appends the key with count 1, keeping the map a tally of the longer prefix |
| `MyOrderCard.TallyEntries` | src/components/myordercard/MyOrderCard.tsx:35-38 | listing a finished tally's entries in key order, as name and count, gives exactly the summary of the order |
| `MyOrderCard.DistinctFirstOccurrenceOrder` | src/components/myordercard/MyOrderCard.tsx:33-35 | the listed names are strictly ordered by the position where each first occurs in the order |
| `MyOrderCard.AggregateIsCountSummary` | src/components/myordercard/MyOrderCard.tsx:29-38 | the summary lists every name of the order and no other, each with its multiplicity, in first-occurrence order |
| `MyOrderCard.CountSummaryUnique` | src/components/myordercard/MyOrderCard.tsx:29-38 | any list meeting that characterization is the card's summary, so the characterization fixes the output completely |
| `MyOrderCard.AggregateTotalCount` | src/components/myordercard/MyOrderCard.tsx:29-34 | the counts add up to the number of pizzas in the order |
| `MyOrderCard.AggregateNames` | src/components/myordercard/MyOrderCard.tsx:30-38 | a name is listed exactly when some pizza of the order has it |
| `MyOrderCard.AggregateCountsMultiplicity` | src/components/myordercard/MyOrderCard.tsx:31-33 | pizzas sharing a name collapse into one line whose count is their number |
| `MyOrderCard.AggregateExample` | src/components/myordercard/MyOrderCard.tsx:29-39 | the order A, B, A is shown as A with 2, then B with 1 |
| `RegisterPatterns.NameRegexTest` | src/pages/login-register/Register.tsx:43 | `nameRegex.test`: two or more characters, each an ASCII letter or one of the 18 accented Hungarian letters; an accepted name is at least 2 long and holds no digit, space or hyphen |
| `RegisterPatterns.NameRejects` | src/pages/login-register/Register.tsx:43 | names shorter than 2 characters, or holding a digit, a space or a hyphen, are refused |
| `RegisterPatterns.PasswordRegexTest` | src/pages/login-register/Register.tsx:40 | `passwordRegex.test`, the two lookaheads (which stop at a line terminator) and the body `[a-zA-Z\d]{8,}`; an accepted password has at least 8 characters, a letter and a digit |
| `RegisterPatterns.PasswordRegexMeaning` | src/pages/login-register/Register.tsx:40 | the pattern with its two lookaheads accepts a password exactly when it has at least 8 characters, all ASCII letters or digits, with at least one letter and at least one digit |
| `RegisterPatterns.PasswordAcceptsExample` | src/pages/login-register/Register.tsx:40 | `abcdefg1` is accepted |
| `RegisterPatterns.PasswordRejectsExamples` | src/pages/login-register/Register.tsx:40 | `abcdefgh` (no digit), `abc1` (too short) and `1234567a!` (a symbol) are refused |
| `RegisterPatterns.IsLocalPart` | src/pages/login-register/Register.tsx:42 | the local part: one or more ASCII letters, digits or symbols of `LocalPartSymbols`, the class before the `@`; it is never empty and never holds `@` |
| `RegisterPatterns.IsLabel` | src/pages/login-register/Register.tsx:42 | a domain label `[a-zA-Z0-9](?:[a-zA-Z0-9-]{0,61}[a-zA-Z0-9])?`: 1 to 63 characters; it neither starts nor ends with a hyphen and holds no dot and no `@` |
| `RegisterPatterns.EmailPattern` | src/pages/login-register/Register.tsx:41-42 | the language of `emailRegex`: a local part, `@`, then one or more labels joined by dots; such an address is at least 3 long, starts with something other than `@` and holds an `@` |
| `RegisterPatterns.EmailRegexTest` | src/pages/login-register/Register.tsx:41-42 | `emailRegex.test`, computed by splitting at the first `@` and cutting the domain at its dots; an accepted address is at least 3 long (as `a@b`) and does not start with `@` (its exact language is `EmailRegexTestMeaning`) |
| `RegisterPatterns.SplitLabels` | src/pages/login-register/Register.tsx:42 | cutting a domain at its dots gives at least one dot-free piece, and joining the pieces with dots gives the domain back |
| `RegisterPatterns.SplitJoinLabels` | src/pages/login-register/Register.tsx:42 | cutting dot-joined dot-free labels at their dots gives the labels back |
| `RegisterPatterns.LabelChars` | src/pages/login-register/Register.tsx:42 | a domain label contains no dot and no `@` |
| `RegisterPatterns.LocalPartHasNoAt` | src/pages/login-register/Register.tsx:42 | a local part contains no `@`, so the `@` after it is the first in the address |
| `RegisterPatterns.DomainSplitsIntoLabels` | src/pages/login-register/Register.tsx:42 | cutting any domain of the pattern at its dots yields only valid labels |
| `RegisterPatterns.JoinLabelsHasNoAt` | src/pages/login-register/Register.tsx:42 | a domain built from labels contains no `@` |
| `RegisterPatterns.EmailRegexTestSound` | src/pages/login-register/Register.tsx:41-42 | every address the split-based test accepts belongs to the pattern's language |
| `RegisterPatterns.EmailRegexTestComplete` | src/pages/login-register/Register.tsx:41-42 | the split-based test accepts every address in the pattern's language |
| `RegisterPatterns.EmailRegexTestMeaning` | src/pages/login-register/Register.tsx:41-42 | the split-based test and the pattern's language agree in both directions |
| `RegisterPatterns.EmailHasOneAt` | src/pages/login-register/Register.tsx:41-42 | an accepted address contains exactly one `@`, the one that ends the local part |
| `RegisterPatterns.EmailAcceptsDotlessDomain` | src/pages/login-register/Register.tsx:42 | `a@b`, whose domain has no dot, is accepted |
| `RegisterPatterns.EmailRejectsEmptyLabel` | src/pages/login-register/Register.tsx:42 | `a@b..c`, with an empty label, is refused |
| `RegisterPatterns.EmailRejectsLeadingHyphen` | src/pages/login-register/Register.tsx:42 | `a@-b`, with a label that starts with a hyphen, is refused |
| `RegisterPatterns.EmailRejectsSecondAt` | src/pages/login-register/Register.tsx:41-42 | `a@b@c`, with a second `@`, is refused |
| `Register.Passes` | src/pages/login-register/Register.tsx:58-66 | the five tests of the cascade: the name pattern on the last and the first name, the e-mail pattern, the password pattern, and `password !== password2`; passing the name rules needs 2 characters, the e-mail rule an `@`, the password rule 8 characters, and the confirmation rule holds exactly when the passwords are equal |
| `Register.Diagnostic` | src/pages/login-register/Register.tsx:59-67 | the error notification text of each rule, word for word as in the source (the two name messages written as the field's name plus their shared wording); no text is empty |
| `Register.DiagnosticsDistinct` | src/pages/login-register/Register.tsx:59-67 | two rules have the same message exactly when they are the same rule, so the message shown tells which rule failed |
| `Register.HandleClick` | src/pages/login-register/Register.tsx:58-70 | the form is submitted exactly when all five rules pass; a rejection names a failing rule and every earlier rule passes; the body holds the entered first name, last name, e-mail and password |
| `Register.HandleClickReportsFirstFailure` | src/pages/login-register/Register.tsx:58-67 | a rule is reported exactly when it fails and every rule before it passes |
| `Register.MismatchIsReported` | src/pages/login-register/Register.tsx:66-67 | with four valid fields and a differing confirmation, the mismatch message is shown and nothing is posted |
| `Register.PayloadIgnoresConfirmation` | src/pages/login-register/Register.tsx:66-70 | once the other four fields pass, the form is submitted exactly when the confirmation equals the password, and any other confirmation is reported as a mismatch |

## Left out

- The request to `/auth/register` is left out: posting the body, the `res.ok` check, the success notification, the redirect to the login page, and logging a failed request. These are network and library calls. The model stops at the decision to post and the body posted.
- The error notifications are left out. `Register.Diagnostic` gives the message text for each rule, but showing it is library I/O.
- React state and scheduling are left out: `useState`, `setPizzaList`, re-running the effect when `pizzas` changes, and the asynchronous event handler. These are framework behaviour.
- All rendering is left out: JSX, styling, and `orderDate.toLocaleString()`, whose output depends on the locale.
- Order fields other than the pizzas' names are left out, as are pizza fields other than `name`. The summary reads only pizza names.
- The WebSocket notification channel in `src/socket.js` is left out. It only logs connection events.
- `MyOrderCard.CountPizzas`: counts are unbounded naturals. JavaScript numbers lose precision above 2^53, which no order reaches.
- A general regular-expression engine is not modelled. Each of the three patterns is written out by hand as a predicate over characters.
