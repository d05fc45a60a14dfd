# mkdocs-shadcn template filters, modelled in Dafny

This project models the core of the Jinja template filters of the
mkdocs-shadcn theme (`shadcn/filters.py`). The filters modelled are:

- `parse_author`: turns a site author such as `Jane Doe <jane@example.com>`
  into a `mailto:` anchor, or into a `<span>` when no e-mail is found.
- `active_section`: the first top-level navigation item that is an active
  section.
- `first_page`: the first page of a section. A page among the section's
  own children wins. Otherwise the child sections are searched recursively,
  in order.
- `iconify`: validates a `provider:name` icon key, builds the request to
  the Iconify API, and returns the icon's markup. When the request fails it
  returns the empty icon `<svg></svg>`.

The filters are pure, so the model is made of datatypes, functions and
lemmas. The files are:

- `wrappers.dfy`: `Option` and `Result`.
- `pystrings.dfy`: the Python string operations the filters rely on.
  These are `str.split(sep)` for a one-character separator, `str.strip()`
  with Python's whitespace set, and `find`/`rfind` of a character. Each has
  its characterising lemmas.
- `author.dfy`: `parse_author`.
- `navigation.dfy`: `active_section` and `first_page`, over a finite
  navigation tree of pages, sections and other items.
- `iconify.dfy`: `iconify`. The network is a parameter `fetch`, which
  answers a request with the response body, or with nothing when the
  request fails.

## Model

| member | source | states |
|---|---|---|
| Author.ExtractionByPosition | shadcn/filters.py:48-50 | The split-based e-mail is the text after the last `<`, up to the next `>` or the end. The split-based name is the text before the first `<`, stripped. |
| Author.Address | shadcn/filters.py:48-49 | The e-mail found holds neither `<` nor `>`. |
| Author.DisplayName | shadcn/filters.py:48-50 | The name found holds no `<` and has no surrounding whitespace. |
| Author.ParseBracketed | shadcn/filters.py:47-50 | With both brackets present: an anchor of the address and name when the address is non-empty; otherwise a span of the name. |
| Author.ParseUnbracketed | shadcn/filters.py:51-57 | Without one of the brackets: a span of the whole author, stripped. An already stripped author is shown unchanged. |
| Author.ParseConventional | shadcn/filters.py:44-57 | Round trip: `NAME <EMAIL>`, with a stripped name and a non-empty bracket-free e-mail, gives the anchor of exactly that e-mail and name. |
| Author.ParseEmptyBrackets | shadcn/filters.py:49-57 | `NAME <>` has an empty e-mail, which counts as false, so the result is a span of the name. |
| Author.ParseBracketsOutOfOrder | shadcn/filters.py:47-50 | Only the presence of the brackets is tested, not their order. `A>B<C` gives e-mail `C` and name `A>B`. |
| Author.ParseSeveralBrackets | shadcn/filters.py:48-49 | With several `<`, the last one opens the e-mail: `NAME <X> <Y>` gives `Y`. |
| Navigation.ActiveSection | shadcn/filters.py:66-71 | None exactly when no top-level item is an active section. Otherwise the result is the first top-level item that is one. |
| Navigation.ActiveSectionFrom | shadcn/filters.py:68-71 | The same, for the items from a given position on. |
| Navigation.ActiveSectionIgnoresNested | shadcn/filters.py:68-69 | An active section nested inside an inactive top-level section is not found. |
| Navigation.FirstDirectPage | shadcn/filters.py:76-78 | The first child that is a page. None exactly when no child is a page. |
| Navigation.FirstPage | shadcn/filters.py:74-86 | A result is a page lying below the section. None exactly when no page lies below it. |
| Navigation.FirstNestedPage | shadcn/filters.py:80-86 | A result is a page below one of the child sections from the given position on. None when no page lies below any of them. |
| Navigation.FirstPagePrefersDirectChild | shadcn/filters.py:76-78 | A page among the children is returned (the first such child), even after a child section that holds pages. |
| Navigation.FirstPageOfFirstFruitfulSection | shadcn/filters.py:80-84 | With no page among the children, the result is that of the first child section in which a page is found. |
| Navigation.NestedSearchSkips | shadcn/filters.py:80-85 | The nested search passes over child sections in which nothing is found. |
| Navigation.FirstPageAfterEmptySection | shadcn/filters.py:80-86 | An empty child section is skipped; the page in the next child section is found. |
| Iconify.KeyAccepted | shadcn/filters.py:22-26 | A key is accepted exactly when it holds exactly one `:`. |
| Iconify.AcceptedKeyParts | shadcn/filters.py:22-29 | An accepted key is provider and name joined by `:`, neither holding a `:`. The query is the height, then the options. |
| Iconify.RequestForParts | shadcn/filters.py:21-29 | Round trip: provider and name without `:` give a request for exactly those. Its URL starts `https://api.iconify.design/PROVIDER/NAME.svg?`. |
| Iconify.DefaultHeightRequested | shadcn/filters.py:20-29 | Without a height argument, the query is exactly `height=20px`. |
| Iconify.RejectedKey | shadcn/filters.py:22-26 | A key without exactly one `:` raises the key error, whatever the network would answer. |
| Iconify.FetchOutcome | shadcn/filters.py:32-41 | For an accepted key the result is the response body. When the fetch fails it is exactly `<svg></svg>`. |
| PyStrings.SkipLeading | shadcn/filters.py:50 | The position reached over leading whitespace is the first non-whitespace position, or the end. |
| PyStrings.SkipTrailing | shadcn/filters.py:50 | The position reached back over trailing whitespace follows the last non-whitespace position, or is the lower bound. |
| PyStrings.Strip | shadcn/filters.py:50 | `strip()` gives a string no longer than its input, with no whitespace at either end. |
| PyStrings.StripFrame | shadcn/filters.py:50 | What `strip()` keeps is an infix with only whitespace before and after it. |
| PyStrings.StripUnique | shadcn/filters.py:53 | Any whitespace-framed infix without whitespace at its ends is what `strip()` returns. |
| PyStrings.StripPadded | shadcn/filters.py:50 | Trailing whitespace after a stripped string is all that `strip()` removes. |
| PyStrings.IndexOf | shadcn/filters.py:49 | The first position of the character, or the length when it does not occur. |
| PyStrings.LastIndexOf | shadcn/filters.py:48-49 | The last position of the character, or -1 when it does not occur. |
| PyStrings.LastIndexOfAt | shadcn/filters.py:48-49 | A position holding the character with none after it is the last position. |
| PyStrings.Split | shadcn/filters.py:22 | `split(sep)` gives at least one piece, and no piece holds the separator. |
| PyStrings.SplitCount | shadcn/filters.py:22-23 | There is one more piece than there are separators. |
| PyStrings.SplitJoin | shadcn/filters.py:22 | Joining the pieces with the separator gives back the string. |
| PyStrings.SplitUnique | shadcn/filters.py:22 | A split is the only separator-free list of pieces that joins back to the string. |
| PyStrings.SplitFirst | shadcn/filters.py:50 | The first piece is everything before the first separator. |
| PyStrings.SplitLast | shadcn/filters.py:48-49 | The last piece is everything after the last separator. |
| PyStrings.LastSeparator | shadcn/filters.py:48-49 | In `prefix + sep + last`, with no separator in `last`, the added separator is the last one, and `last` follows it. |

## Left out

- The HTTP request of `iconify`: the User-Agent header, `urlopen`, and UTF-8 decoding of the body. These are I/O, so the network is the parameter `fetch`. A `URLError` (including `HTTPError`) is a `None` answer. Other exceptions, which would propagate, are not modelled.
- The `lru_cache` on `iconify`: caching does not change results for a fixed network answer.
- `urlencode` of the query: the request carries the query as its ordered list of (name, value) pairs, height first, and percent-encoding is not modelled. In Python no option can be named `height`; the model does not forbid one.
- The error logging of a failed fetch: it has no effect on the result.
- `file_exists`, `url2_filter` and `is_http_url`: they depend on the file system, the Jinja context and `urllib.parse`.
- `setattribute`: it mutates arbitrary Python objects through reflection.
- Page and section objects are compared by value, not by identity. MkDocs' `is_page` and `is_section` are always true, and `Page` objects are always truthy, so those tests reduce to the item's kind.
- The declared return type of `parse_author` allows `None`, but no path returns it, so the model returns a string. The model does not HTML-escape the name or the e-mail, just as the filter does not.
- In `parse_author`, an absent e-mail and an empty one are both false in the filter's `if email:` test, so the model folds them into the empty string.
- Strings are sequences of Unicode code points; `strip()` uses Python's `str.isspace` set, and no normalisation or case folding is involved.
