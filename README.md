# Chirpy: chirp validation and login, modelled in Dafny

Chirpy is a small Express web service for short posts ("chirps") with user
accounts. This project models the two pieces of its HTTP API that hold
decisions of their own, once the Express request/response plumbing and the
database are taken away:

- **Chirp validation** (`handlerChirpsValidate`, module `Chirps`): a body
  longer than 140 is refused with a `BadRequestError` whose message is
  "Chirp is too long. Max length is 140". Otherwise the body is split on the
  single space character. Each token whose lower-cased form is `kerfuffle`,
  `sharbert` or `fornax` becomes `****`. The tokens are joined back with
  single spaces. The length is JavaScript's `length`, so it counts UTF-16
  code units: a character outside the Basic Multilingual Plane counts twice
  (`Utf16Length`).
- **Login** (`handlerLogin`, module `Auth`): the guards run in order.
  - A missing or empty `password` or `email` gives `BadRequestError("Missing required fields")`.
  - An unknown e-mail gives `UserNotAuthenticatedError("Incorrect email or password")`.
  - A password that does not match gives the same error.
  - Otherwise the reply has status 200 and holds the user's `id`, `email`,
    `createdAt` and `updatedAt`, never the stored hash.
  - The user lookup (`getUserByEmail`) is the parameter `lookup`.
  - The argon2 check (`checkPasswordHash`) is the parameter `verify(password, hash)`.
- **Error classes** (module `Errors`): the four classes of `src/api/errors.ts`
  as one datatype carrying its message, with the HTTP status of each class.

Files: `wrappers.dfy` (Option, Result), `errors.dfy`, `chirps.dfy`, `auth.dfy`.

The login handler replies with the user and issues no tokens.
`checkPasswordHash` throws on a malformed hash (src/auth.test.ts:46-47); the
model keeps `verify` abstract.

## Model

| member | source | states |
|---|---|---|
| `Errors.StatusCode` | src/api/errors.ts:1-23 | each error class maps to its own status: 400 bad request, 401 not authenticated, 403 forbidden, 404 not found |
| `Errors.StatusCodeIdentifiesClass` | src/api/errors.ts:1-23 | two errors have the same status exactly when they are of the same class, whatever their messages |
| `Chirps.Utf16Length` | src/api/chirps.ts:14 | the JavaScript length of a body lies between its number of characters and twice that |
| `Chirps.Utf16LengthInBmp` | src/api/chirps.ts:14 | for text without astral characters the JavaScript length is the number of characters |
| `Chirps.SplitOnSpace` | src/api/chirps.ts:22 | `split(" ")` always gives at least one token (an empty body gives one empty token), and no token contains a space |
| `Chirps.SplitCountsSpaces` | src/api/chirps.ts:22 | the split gives one more token than the body has spaces, so leading, trailing and doubled spaces give empty tokens |
| `Chirps.JoinWithSpace` | src/api/chirps.ts:26 | `join(" ")`: the joined string starts with the first token |
| `Chirps.JoinCountsSpaces` | src/api/chirps.ts:26 | joining one or more space-free tokens puts exactly one space between neighbours, so the result has one space fewer than there are tokens |
| `Chirps.JoinSplit` | src/api/chirps.ts:22-26 | joining the tokens of a split with " " gives back the original body |
| `Chirps.SplitJoin` | src/api/chirps.ts:22-26 | splitting a join of one or more space-free tokens gives back exactly those tokens |
| `Chirps.LowerChar` | src/api/chirps.ts:24 | `toLowerCase` on one character: the result is an ASCII lower-case letter exactly when the character is an ASCII letter or the Kelvin sign; an upper-case ASCII letter moves down by 32; a space stays a space and nothing else becomes one |
| `Chirps.ToLower` | src/api/chirps.ts:24 | `toLowerCase` on a token: same length, each character lower-cased in place, and a space appears in the result exactly when the token has one |
| `Chirps.IsBadWord` | src/api/chirps.ts:20-24 | `badWords.includes(word.toLowerCase())`; a token that matches has six to nine characters and no space |
| `Chirps.CleanWord` | src/api/chirps.ts:23-24 | the `map` callback: a bad word becomes "****", any other token is returned unchanged, and the result is never longer than the token |
| `Chirps.CleanWords` | src/api/chirps.ts:22-25 | the `map` over the tokens: as many tokens as the input, each the cleaned token in the same position and none longer than the original |
| `Chirps.WholeTokenMatching` | src/api/chirps.ts:20-24 | matching ignores case ("Fornax", "KERFUFFLE", a Kelvin-sign K) but is whole-token only ("fornax!", "kerfufflez" are not bad words); "****" is not a bad word |
| `Chirps.MatchingIgnoresCase` | src/api/chirps.ts:24 | for every token, it matches exactly when its lower-cased form matches, so case never decides a match |
| `Chirps.MatchingIsWholeToken` | src/api/chirps.ts:20-24 | for every bad word and any non-empty addition before or after it, the longer token is not a bad word |
| `Chirps.CleanWordShortens` | src/api/chirps.ts:20-24 | a cleaned token is never longer than the token, contains a space only if the token did, and is never itself a bad word |
| `Chirps.CleanChirp` | src/api/chirps.ts:13-26 | fails exactly when the body is longer than 140, with BadRequest and the message "Chirp is too long. Max length is 140"; on success the result splits into as many tokens as the body, each the token in the same position with bad words replaced by "****", and the result is no longer than the body and so within 140 |
| `Chirps.CleanChirpLimitInclusive` | src/api/chirps.ts:13-14 | for text without astral characters, a body is accepted if and only if it has at most 140 characters, so 140 itself is accepted |
| `Chirps.CleanChirpKeepsCleanBody` | src/api/chirps.ts:22-26 | an accepted body none of whose tokens is a bad word comes back unchanged |
| `Chirps.CleanChirpIdempotent` | src/api/chirps.ts:20-26 | cleaning the cleaned body again gives the same cleaned body |
| `Auth.Provided` | src/api/auth.ts:17 | JavaScript truthiness of a string field: false exactly when the field was not sent or is the empty string |
| `Auth.ToUserResponse` | src/api/auth.ts:34-39 | the reply object copies the user's id, email, createdAt and updatedAt; its type has no field for the hash |
| `Auth.Login` | src/api/auth.ts:16-39 | succeeds if and only if both fields are given, a user exists for the e-mail and the password verifies against that user's hash; success is status 200 with that user's id, email, createdAt and updatedAt; every failure is either BadRequest "Missing required fields" (exactly when a field is missing or empty) or UserNotAuthenticated "Incorrect email or password" |
| `Auth.LoginChecksFieldsFirst` | src/api/auth.ts:17-21 | with a missing or empty field the result is BadRequest whatever the user store and the hash check would say, so neither is consulted first |
| `Auth.LoginFailuresIndistinguishable` | src/api/auth.ts:21-32 | an unknown e-mail and a wrong password for a known e-mail give identical errors, class and message |
| `Auth.LoginDependsOnlyOnThatUser` | src/api/auth.ts:21-29 | the outcome depends only on the user found for the e-mail sent, and the password is checked only against that user's hash |
| `Auth.LoginReplyOmitsHash` | src/api/auth.ts:34-39 | users who differ only in their stored hash, and whose passwords check alike, get identical replies, so the reply does not reveal the hash |

## Left out

- Express plumbing: reading `req.body`, `respondWithJSON`, and turning a thrown error into an HTTP reply. A result value stands for the reply, a `Failure` for the throw, and `Errors.StatusCode` gives the status.
- A request to the validation handler without a `body` field. The handler's parameter type declares `body: string`; without it the handler fails with a JavaScript `TypeError` on `length`. A non-string `body` is not modelled either: one whose `length` is over 140 (a long array) gets the too-long BadRequest, `null` fails with a `TypeError` on `length`, and any other non-string fails with a `TypeError` at `split`.
- `Chirps.LowerChar`, `Chirps.ToLower`: lower-casing covers `A`-`Z` and the Kelvin sign (U+212A, lower-cased to `k`) and leaves every other character as it is, so `ToLower` keeps the length. JavaScript's `toLowerCase` also lowers other letters ("É") and can lengthen a string ("\u0130" becomes "i" followed by U+0307). Bad words are plain ASCII, so neither difference can change whether a token matches.
- `Chirps.Utf16Length` counts UTF-16 code units of strings of Unicode scalar values. A JSON body can carry a lone surrogate such as `"\ud800"`, which JavaScript counts as one unit. A Dafny `char` cannot hold a lone surrogate, so such bodies are outside the model.
- Auth.Login: the user lookup and the password check are parameters, and both always return. A database failure, or `checkPasswordHash` throwing on a malformed hash, rejects the handler's promise with the driver's or argon2's own error, which is none of the four API classes. The model does not cover that path.
- Auth.Login: `LoginParams` holds strings only, with None for a field that is absent or `null`. A truthy non-string (a non-zero number, `true`, an array, an object) reaches `getUserByEmail` or argon2 and is not modelled; `false` and `0` give BadRequest, as a missing field does.
- Password hashing (`hashPassword`) and the argon2 check itself are a foreign cryptographic library. The check is only the abstract `verify`.
- src/auth.ts defines only `hashPassword` and `checkPasswordHash`. The `makeJWT`, `validateJWT` and `extractBearerToken` that src/auth.test.ts imports are not defined there, so JWT handling and `Bearer` header extraction are not part of this model.
- User creation (src/api/users.ts) is left out: it checks only that `email` is present, throws an error that is none of the four API classes when the insert returns nothing, and replies 201. Request logging (src/api/middleware.ts, which logs only replies whose status is outside 200-299), readiness, metrics, reset, static file serving and the database queries are left out too.
