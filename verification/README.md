# Image upload backend: configuration parsing and the upload handler

A Dafny model of the two pieces of logic in a small FastAPI backend that
accepts image uploads and stores them on disk.

- **Configuration** (`Config`, over the string primitives in `Strings`):
  - `parse_cors` is the validator for BACKEND_CORS_ORIGINS. A string that does
    not start with `[` is split on every comma, and each piece loses its
    surrounding whitespace. A list, or a `[`-prefixed string, passes through
    unchanged. Any other value is rejected with `Invalid CORS origins: …`.
  - The computed field `all_cors_origins` strips trailing `/` from each
    configured origin and appends FRONTEND_HOST. When the field still holds a
    string, the loop in the source visits it one character at a time, and
    `Members` models that.
  - The computed field `SQLALCHEMY_DATABASE_URI` is `""` without a database
    path, and `sqlite:///` followed by the path otherwise.
  - `IMAGE_DB()` looks up `image_db` in the model configuration. It names the
    upload directory, `../imageDB` as shipped.
- **Upload handler** (`Images`): `upload_image` becomes a pure function
  `UploadImage(store, file, write) -> Handled(response, store')`.
  - The upload directory is an immutable `map<string, seq<bv8>>`, keyed by the
    client's file name exactly as sent.
  - The disk's behaviour is an input. `Written` means the write went through.
    `WriteFailed(reason, leftOnDisk)` means it failed, where `leftOnDisk` is
    what the failed write left in the file, if it got as far as opening it.
  - The content-type gate is Python's `startswith("image/")`: literal and
    case-sensitive. It does not use the case-insensitive media-type comparison
    of section 5.1 of RFC 2045, so `IMAGE/png` is refused.
  - A part without a content type makes the gate itself raise. That exception
    escapes the handler, and it is modelled as `Unhandled`.

Python's `str.strip()`, `str.rstrip("/")`, `str.split(",")` and
`",".join(...)` are modelled in `Strings`, exactly on strings of Unicode
scalar values (see "## Left out" for lone surrogates). Whitespace is the set
that `str.isspace()` accepts. `split` keeps empty pieces, so `""` parses to
`[""]`.

## Model

| member | source | states |
|---|---|---|
| Strings.Strip | backend/app/core/config.py:25 | the result is the input minus its maximal leading and trailing whitespace runs: a slice of the input, everything outside it whitespace, and neither of its ends whitespace |
| Strings.StripIsUnique | backend/app/core/config.py:25 | only one string meets that description, so any string stripped in that sense equals `Strip`'s result |
| Strings.StripIdempotent | backend/app/core/config.py:25 | stripping a stripped origin changes nothing |
| Strings.RStrip | backend/app/core/config.py:64 | `rstrip`: the result is a prefix of the input, the removed suffix consists only of stripped characters, and the result does not end in one |
| Strings.RStripIdempotent | backend/app/core/config.py:64 | removing trailing slashes twice is the same as once |
| Strings.Split | backend/app/core/config.py:25 | splitting on a separator gives one more piece than the separator's occurrences, and no piece contains the separator |
| Strings.JoinSplit | backend/app/core/config.py:25 | the comma-delimited pieces, re-joined with commas, are exactly the original string |
| Strings.SplitJoin | backend/app/core/config.py:25 | splitting the comma-join of a non-empty list of comma-free pieces gives those pieces back |
| Config.ParseCors | backend/app/core/config.py:11-28 | a string not starting with `[` gives a list of (number of commas + 1) origins, each the stripped form of the matching comma-delimited piece, in order, with no comma and no edge whitespace; a `[`-prefixed string and a list come back unchanged; any other value is rejected with the prefixed message |
| Config.ParseCorsJoinRoundTrip | backend/app/core/config.py:24-25 | origins with no comma, no surrounding whitespace and a first one not starting with `[` survive being written comma-separated and parsed back |
| Config.ParseCorsEmptyText | backend/app/core/config.py:24-25 | empty pieces are kept: the empty string parses to a single empty origin |
| Config.Members | backend/app/core/config.py:64 | iterating the field visits a list's items unchanged, or, for a string, one-character items that concatenate back to the string |
| Config.AllCorsOrigins | backend/app/core/config.py:55-66 | one more entry than configured origins; the last is the frontend host unmodified; each earlier one is a prefix of the matching origin, differing from it only by removed `/` characters, and not ending in `/` |
| Config.AllCorsOriginsStable | backend/app/core/config.py:64 | removing trailing slashes again changes no configured entry |
| Config.CommaSeparatedOriginsCount | backend/app/core/config.py:46-48 | a comma-separated BACKEND_CORS_ORIGINS with n commas yields n + 2 allowed origins, with the frontend host last |
| Config.DatabaseUri | backend/app/core/config.py:71-82 | the URI is empty exactly when the database path is empty; otherwise it is `sqlite:///` with the path after it |
| Config.DatabaseUriInjective | backend/app/core/config.py:80-82 | two settings with the same URI have the same database path |
| Config.ImageDbReadsOnlyItsEntry | backend/app/core/config.py:50-52 | the upload directory depends on the `image_db` entry alone: setting or removing any other configuration entry leaves it unchanged |
| Config.DefaultsAsShipped | backend/app/core/config.py:33-69 | with the shipped defaults, the upload directory is `../imageDB`, the only allowed origin is `http://localhost:5173`, and the database URI is empty |
| Images.IsImageTypeIff | backend/app/api/routes/images.py:15 | a content type passes the gate exactly when it is `image/` followed by anything |
| Images.GateExamples | backend/app/api/routes/images.py:15 | `image/png` and `image/` pass; `IMAGE/png`, `Image/png`, `image` and `text/plain` do not |
| Images.UploadImage | backend/app/api/routes/images.py:12-28 | a missing content type escapes as an exception, and a non-image one gets 400 `File is not an image`, both leaving the store untouched; an accepted, written file is stored byte for byte under its own name, with 200 and the name echoed; a failed write gets 500 with the prefixed reason; 200 happens exactly when the bytes were stored; no other name appears, disappears or changes |
| Images.RejectedIffNotImage | backend/app/api/routes/images.py:15-16 | the 400 answer comes exactly from a declared non-image content type, whatever the name, bytes, store or disk |
| Images.GateIgnoresNameAndBytes | backend/app/api/routes/images.py:15-19 | uploads with the same content type are accepted or refused alike, whatever their names, bytes, stores and write outcomes |
| Images.LastWriteWins | backend/app/api/routes/images.py:19-24 | a successful upload after any earlier upload of the same name leaves the store as if only the later one had happened |
| Images.DistinctUploadsCommute | backend/app/api/routes/images.py:19-24 | successful uploads under different names give the same store in either order |
| Images.ReplayLastWriteWins | backend/app/api/routes/images.py:19-24 | after any sequence of requests, each file holds what the latest request touching it left there, and is unchanged if no request touched it |
| Images.UploadCatPng | backend/app/api/routes/images.py:12-26 | an `image/png` upload named `cat.png` gets 200 with the success message and the name, and is stored byte for byte |
| Images.UploadNotesTxt | backend/app/api/routes/images.py:15-16 | a `text/plain` upload named `notes.txt` gets 400 `File is not an image`, and no such file appears |

## Left out

- Loading settings from the environment and `../.env` is left out: it is pydantic-settings library behaviour. This includes the decoding of complex values and the JSON parsing of `[`-prefixed strings. Settings values are plain inputs.
- `AnyUrl` validation and the normalisation behind `str(origin)` are left out, because they are library behaviour. Configured origins are taken as already rendered strings.
- `parse_cors` accepts lists of any element type, but the model's `List` carries strings only. Its `Other` case carries the value as `str()` would render it, because arbitrary Python values cannot be represented.
- Only the `env_file` and `image_db` entries of `model_config` are modelled, and only `image_db` is read. The other entries (`env_ignore_empty`, `extra`) steer the settings loader, which is not modelled.
- API_V1_STR, ENVIRONMENT and PROJECT_NAME are carried in `Settings` but nothing in the core reads them.
- Lone surrogates in a Python `str` (as `os.environ` produces for undecodable bytes) cannot be represented, because a Dafny `char` is a Unicode scalar value. They are neither whitespace nor a comma, so stripping and splitting would treat them like any other character.
- `print_settings` is left out, because it is debugging output.
- FastAPI routing, router registration (`backend/app/api/main.py`) and multipart parsing are left out, because they are framework plumbing. So is the framework's 422 answer when the file field is missing.
- A part with no file name is left out. `UPLOAD_DIR / None` would raise outside the `try` block, and the model's file name is always a string.
- Filesystem effects are left out:
  - the `mkdir` at import time;
  - path resolution: the store key is the raw file name, so names that the file system treats as one file are distinct keys in the model (absolute or `..` names, `./a.png` beside `a.png`, `A.png` beside `a.png` on a case-insensitive file system). The frame clauses of `UploadImage`, `DistinctUploadsCommute` and `ReplayLastWriteWins` hold for keys, and carry over to files only where distinct names are distinct files;
  - the real `open`/`write`.
- The disk's behaviour is the `WriteOutcome` input. A failure while reading the upload falls under `WriteFailed`, like a failure while writing.
- The exception text `str(e)` is the `reason` string of `WriteFailed`, because it comes from the operating system.
- The exact body that the server's error middleware sends for an escaped exception is left out. The model records only that the response is a 500 that is not the handler's own.
- `async`/`await` and concurrent uploads of the same name are left out. Requests are served one after another (`Replay`).
