# A verified model of a small HTTP/1.1 server core

This project models the request, routing and response core of a small
multi-threaded web server written in Rust:

- `HttpMethod::from_str` and `HttpRequest::parse` (`src/http.rs`);
- the `Router` with `new`, `get`, `post`, `put`, `delete` and `handle`
  (`src/router.rs`);
- `HttpResponse` with `new`, `ok`, `not_found`, `bad_request`, `json`,
  `with_body`, `with_header` and `to_string` (`src/response.rs`).

The modules follow the source files:

| module | file | models |
|---|---|---|
| `Wrappers` | `wrappers.dfy` | Rust's `Option` |
| `Text` | `text.dfy` | the pieces of Rust's string library the code relies on: `split("\r\n")` and `join("\r\n")`, `split_whitespace`, `trim`, `to_lowercase`, `find` for one character, the decimal `Display` of an unsigned integer, and `len` in UTF-8 bytes |
| `Http` | `http.dfy` | `src/http.rs` |
| `Response` | `response.dfy` | `src/response.rs` |
| `Routing` | `routing.dfy` | `src/router.rs` |

How each part is represented:

- **Request parser.** `Http.Parse` is a method with the same loop as the source. It is proved equal to the function `Http.Parsed`, and every property of the parser is proved about that function.
- **Responses.** `with_body` and `with_header` take `self` by value and return it, so no other reference can see the change. A response is therefore a datatype, and each builder step is a function from the old response to the new one.
- **Router.** The router is a class whose route table is a `map` field. The four registration methods modify that field. `handle` is a function that reads the router.
- **Handlers.** A handler is any total function `HttpRequest -> HttpResponse`.
- **`to_string`.** It walks a `HashMap`, whose order is unspecified. `HttpResponse.ToString` picks the next key with `:|`, so the model makes no assumption about order. It returns the order it used as a ghost value and is proved to produce the serialisation for that order.

## Model

| member | source | states |
|---|---|---|
| `Http.FromStr` | src/http.rs:13-21 | `Some` exactly for `GET`, `POST`, `PUT` and `DELETE`; any other string, `get` included, gives `None`; a result of `Some(m)` means the string is the name of `m` |
| `Http.MethodNameRoundTrip` | src/http.rs:13-21 | each variant is read back from its own name, so the four names map to four distinct variants |
| `Http.FirstEmptyLine` | src/http.rs:52-56 | the index where the header loop stops: the first empty line from line 1 on, or the number of lines when there is none |
| `Http.HeaderKey` | src/http.rs:58-59 | a stored key is trimmed and has no upper-case ASCII letter |
| `Http.HeaderValue` | src/http.rs:60 | a stored value is trimmed |
| `Http.HeaderLineSplit` | src/http.rs:58-60 | a field line is cut at its first colon: for a name without a colon, `name:value` has key `name` trimmed and lower-cased and value `value` trimmed, whatever colons `value` holds |
| `Http.HeaderMapAppend` | src/http.rs:58-62 | reading one more line inserts its key and value if it has a colon and changes nothing otherwise |
| `Http.HeaderMapNormalised` | src/http.rs:58-61 | every key of the header map is trimmed and lower-cased and every value trimmed |
| `Http.HeaderMapKeys` | src/http.rs:58-62 | a key is in the map if and only if some line with a colon has that key; lines without a colon add nothing |
| `Http.HeaderMapKeepsKey` | src/http.rs:61 | later lines with other keys leave a key's entry as it was |
| `Http.HeaderMapLastWins` | src/http.rs:52-61 | with a repeated key, the map holds the value of the last line with that key |
| `Http.HeaderMap` | src/http.rs:49-62 | the header map of a sequence of lines: the empty map, updated line by line in order as the loop does (its properties are the `HeaderMap…` lemmas below) |
| `Http.ReadField` | src/http.rs:58-62 | one loop iteration: a line with a colon sets its trimmed, lower-cased name to its trimmed value, overwriting an earlier value; a line without a colon leaves the map unchanged |
| `Http.Parsed` | src/http.rs:33-78 | the result of `parse` as a function of the request text; a parsed path is never empty and holds no whitespace |
| `Http.Body` | src/http.rs:50-70 | the body given the first empty line: with no empty line it is all the lines rejoined, the request line included; an empty line as the last line gives an empty body |
| `Http.Parse` | src/http.rs:33-78 | the parser's loop computes exactly `Parsed`: the request line's method and path, the header map of the lines up to the first empty line, and the body |
| `Http.ParsedRequestLine` | src/http.rs:34-46 | parsing succeeds if and only if the first line has exactly three whitespace-separated tokens and the first names a method; the method and path are then the first two tokens verbatim, and the third token is never examined |
| `Http.ParsedMessageAnyLine` | src/http.rs:34-77 | body round trip for every request line the parser accepts: a line that whitespace splits into three tokens whose first names a method (tabs, runs of spaces and surrounding whitespace allowed), field lines, an empty line and any body `B` parse to that method, the second token as path, the header map of those field lines and the body `B` itself; lines of `B` are never read as fields |
| `Http.ParsedMessage` | src/http.rs:34-77 | the canonical case of the round trip: `METHOD path version` with single spaces, field lines, an empty line and any body `B` parse to that method, that path, the header map of those field lines and `B` itself; an empty `B` gives an empty body |
| `Http.ParsedWithoutEmptyLine` | src/http.rs:50-67 | with no empty line after the request line, every following line is read as a field line and the body is the whole request, request line included |
| `Http.ParsedHealthCheck` | src/http.rs:33-78 | `GET /api/health HTTP/1.1\r\nHost: x\r\n\r\n` parses to GET, `/api/health`, the headers `{host: x}` and an empty body |
| `Text.Find` | src/http.rs:58 | `None` exactly when the character is absent; otherwise the index of its first occurrence |
| `Text.SplitCrlf` | src/http.rs:34-37 | splitting always yields at least one line, so the source's check for an empty line list never fires |
| `Text.JoinCrlf` | src/http.rs:67 | `join("\r\n")`: the pieces with "\r\n" between neighbours; it is the inverse of the split (next two rows) |
| `Text.JoinSplitCrlf` | src/http.rs:34 | joining the lines of a split with "\r\n" gives back the original text |
| `Text.SplitJoinCrlf` | src/http.rs:67 | splitting lines joined with "\r\n" gives back those lines, when none of them contains "\r\n" |
| `Text.SplitCrlfAppend` | src/http.rs:34 | the split of `a + "\r\n" + b` is the split of `a` followed by the split of `b` |
| `Text.SplitCrlfMessage` | src/http.rs:34 | a first line, further lines, an empty line and a body split into those lines, an empty line, and the lines of the body |
| `Text.Tokens` | src/http.rs:40 | every token is non-empty and contains no whitespace; which tokens come out is pinned by `Text.TokensSkipWhitespace` and `Text.TokensWord` |
| `Text.TokensSkipWhitespace` | src/http.rs:40 | leading whitespace produces no token |
| `Text.TokensWord` | src/http.rs:40 | a non-empty whitespace-free word followed by whitespace or by nothing is the next token, and tokenising continues on what follows |
| `Text.TokensOfThreeWords` | src/http.rs:40-41 | three whitespace-free words joined by single spaces split into exactly those three words |
| `Text.Trim` | src/http.rs:59-60 | the result neither starts nor ends with whitespace |
| `Text.TrimSurrounded` | src/http.rs:59-60 | trimming whitespace, then a trimmed text, then whitespace, gives exactly that text |
| `Text.TrimDropsOnlyWhitespace` | src/http.rs:59-60 | every string is whitespace, then its trimmed form, then whitespace |
| `Text.ToLower` | src/http.rs:59 | same length, no upper-case ASCII letter left, each upper-case ASCII letter replaced by its lower-case form and every other character kept |
| `Text.Decimal` | src/response.rs:44 | the decimal numeral is non-empty, all digits, has no leading zero and reads back as the number |
| `Text.DecimalRoundTrip` | src/response.rs:44 | reading the numeral back gives the number |
| `Text.Utf8Length` | src/response.rs:44 | between one and four bytes per character, and exactly one per character for ASCII text |
| `Response.HttpResponse.New` | src/response.rs:12-22 | the given status and reason, an empty body, and exactly one header: `Content-Type: text/html` |
| `Response.HttpResponse.Ok` | src/response.rs:24-26 | status 200 `OK`, otherwise as `new` |
| `Response.HttpResponse.NotFound` | src/response.rs:28-30 | status 404 `NOT FOUND`, otherwise as `new` |
| `Response.HttpResponse.BadRequest` | src/response.rs:32-34 | status 400 `BAD REQUEST`, otherwise as `new` |
| `Response.HttpResponse.Json` | src/response.rs:36-40 | the given status and reason, an empty body, and exactly one header: `Content-Type: application/json` |
| `Response.JsonIsNewWithHeader` | src/response.rs:36-40 | `json` is `new` with its content type overwritten |
| `Response.HttpResponse.WithBody` | src/response.rs:42-46 | the body is set; `Content-Length` is added or replaced by the body's length in UTF-8 bytes as a plain decimal numeral, the one that reads back as that length and has no leading zero; the status, the reason and every other header are unchanged |
| `Response.WithBodyTwice` | src/response.rs:42-46 | a second `with_body` undoes everything the first one set, so `with_body` with the same body is idempotent |
| `Response.HttpResponse.WithHeader` | src/response.rs:48-51 | the one header is set, overwriting an earlier value (`Content-Length` and `Content-Type` included); nothing else changes |
| `Response.WithHeaderTwice` | src/response.rs:48-51 | setting a header twice keeps only the second value |
| `Response.WithHeaderCommutes` | src/response.rs:48-51 | headers with different keys can be set in either order |
| `Response.HttpResponse.StatusLine` | src/response.rs:54 | the status line is `HTTP/1.1 `, then the code as a canonical decimal numeral (no leading zero), then one space, then the reason phrase; it holds a carriage return only if the reason does |
| `Response.HttpResponse.HeaderLines` | src/response.rs:56-58 | one `key: value` line per key of the walk, in the walk's order |
| `Response.HeaderBlockJoined` | src/response.rs:55-59 | the status line followed by the header block is the status line and the header lines joined with "\r\n", with a final "\r\n" |
| `Response.HttpResponse.Serialization` | src/response.rs:53-63 | for a given walk order, the text starts with the status line and "\r\n", and ends with "\r\n" followed by the body verbatim |
| `Response.HttpResponse.ToString` | src/response.rs:53-63 | the output is the status line `HTTP/1.1 code reason`, then one `key: value` line per header in some order that lists every key exactly once, then an empty line, then the body |
| `Response.EnumerationLength` | src/response.rs:56-58 | a walk that lists every key once has as many steps as there are headers |
| `Response.HeaderLinesOfEnumeration` | src/response.rs:56-58 | whatever the order, there is exactly one `key: value` line per header and no other line |
| `Response.SerializationLines` | src/response.rs:53-63 | read back line by line, a serialised response is the status line, one line per header, an empty line and the lines of the body, provided no reason, key or value holds a carriage return |
| `Response.NewSerialization` | src/response.rs:12-21 | with its single header, a fresh response has one serialisation only: the status line, `Content-Type: text/html` and an empty line |
| `Response.JsonExampleHeaders` | src/response.rs:36-46 | `json(200, "OK").with_body("{\"a\":1}")` has exactly the headers `Content-Type: application/json` and `Content-Length: 7` |
| `Response.JsonExampleLines` | src/response.rs:53-58 | that response serialises with the header lines `Content-Length: 7` and `Content-Type: application/json`, in one order or the other |
| `Routing.Router.constructor` | src/router.rs:13-17 | a new router has an empty route table |
| `Routing.Router.Get` | src/router.rs:19-28 | the table maps `(GET, path)` to the handler; every other entry is unchanged |
| `Routing.Router.Post` | src/router.rs:30-39 | the table maps `(POST, path)` to the handler; every other entry is unchanged |
| `Routing.Router.Put` | src/router.rs:41-50 | the table maps `(PUT, path)` to the handler; every other entry is unchanged |
| `Routing.Router.Delete` | src/router.rs:52-61 | the table maps `(DELETE, path)` to the handler; every other entry is unchanged |
| `Routing.Router.Handle` | src/router.rs:63-72 | on a hit for the request's method and exact path, the response is whatever that handler returns; on a miss, exactly the not-found page; the route table is only read |
| `Routing.NotFoundPage` | src/router.rs:68-71 | the miss response: status 404 `NOT FOUND`, exactly the headers `Content-Type` (`text/html`) and `Content-Length`, and the not-found heading as body |
| `Routing.NotFoundPageIs` | src/router.rs:68-71 | the miss response is 404 `NOT FOUND` with headers `Content-Type: text/html` and `Content-Length: 29` and body `<h1>404 - Page Not Found</h1>` |
| `Routing.EmptyRouterMisses` | src/router.rs:13-17 | a new router has an empty route table, and `Handle` on it answers every request with the not-found page |
| `Routing.LastRegistrationWins` | src/router.rs:19-61 | on any router and for any of the four methods, registering the same method and path twice leaves the route table updated with the second handler only, and `Handle` then answers a matching request with that handler's response |
| `Routing.MethodIsPartOfKey` | src/router.rs:64-66 | a new router with one registration has exactly that entry, and `Handle` answers a request on that path with any other method with the not-found page |
| `Routing.OtherPathMisses` | src/router.rs:64-66 | matching is exact: a router with a path registered under all four methods holds exactly those four entries, and `Handle` answers any different path, even one differing only by a prefix or a trailing slash, with the not-found page |
| `Routing.RegistrationIsLocal` | src/router.rs:19-61 | on any router, a registration updates the route table at its own key only; `Handle` before and after it gives the same answer for every other method and path, and the new handler's answer for its own |

## Left out

- `src/main.rs` is not part of this model: the listener, the connection handling on a 1024-byte buffer, file reads, `sleep` and logging are I/O.
- The thread pool comes from an external crate whose source is not shown. It, the `Arc` sharing and the `Send`/`Sync` bounds concern concurrency, which is not modelled.
- Handlers are pure total functions. Whatever a real handler does besides returning a response (sleeping, reading files, printing) is not modelled.
- `Http.HeaderKey`: lower-cases ASCII letters only. `str::to_lowercase` maps every Unicode letter, so a key with non-ASCII upper-case letters is kept as is here.
- `Text.ToLower`: the same restriction to ASCII letters as `Http.HeaderKey`.
- `Response.HttpResponse.ToString`: the header order is whatever the `HashMap` yields. The contract fixes the text only up to the choice of an order that lists every key once.
- `str::find` returns a byte offset and the model uses a character index. Both cut the line at the same place, because `:` is a one-byte character.
- The builder steps of `HttpResponse` and `Router` consume and return `self`. They are modelled as functions on a value for responses, and as in-place updates of the router's table. Neither form can observe the other's aliasing, because the source moves the value.
- Behaviour the code does not have, and which is therefore not modelled:
  - an "unsupported method" variant (an unknown method makes `parse` return `None`);
  - validation of the HTTP version token;
  - a body bounded by `Content-Length` (the body is every line after the first empty one);
  - a serialiser that adds `Content-Length` itself (only `with_body` sets it);
  - header names kept in their original case (keys are lower-cased);
  - a 500 response when a handler fails;
  - an error for a closed thread pool.
