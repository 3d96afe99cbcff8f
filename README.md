# LegalDesk Pro: the catalog and text core in Dafny

LegalDesk Pro is a one-page Streamlit dashboard. It keeps a bookmark catalog of
public certificate services, split into three categories: `fiscal`,
`trabalhista` and `juridico`. This project models what that page computes
underneath its widgets:

- **The CNPJ formatter** `formatar_cnpjs_texto` (`cnpj_format.dfy`, module
  `CnpjFormat`). It is a `re.sub` that punctuates every run of exactly fourteen
  digits with a word boundary on both sides, turning `AABBBCCCDDDDEE` into
  `AA.BBB.CCC/DDDD-EE`.
  - `Scan` follows the regular-expression engine from left to right.
  - `Tokenised` is an independent reference definition: split the text into
    maximal words and single non-word characters, then punctuate exactly the
    words that are fourteen digits.
  - The two are proved equal. Length, digit preservation, pass-through and
    idempotence are proved about the reference.
- **The catalog** (`link_catalog.dfy`, module `LinkCatalog`):
  - the record type;
  - the default catalog `LINKS_PADRAO`;
  - loading with a fallback to that default;
  - the two updates the page makes: flip a favourite, and append a new link.

  The updates are stated as functions on catalog values. They keep every record
  they do not touch, and they keep ids unique.
- **The search / favourites filter** of a category view (`link_filter.dfy`,
  module `LinkFilter`):
  - ASCII `lower`;
  - Python's substring `in`;
  - the keep predicate;
  - `Filtered`, the `(index, record)` list the view shows.
- **The session store** (`dashboard_store.dfy`, module `Dashboard`). Class
  `Store` holds the session catalog `dados` and the content of the data file
  `salvo`. Its methods update them in place, as the page does:
  - flip a favourite;
  - add a link;
  - run the filter loop of a category;
  - decide whether a category heading is drawn;
  - the `todos_vazios` nested loop that decides the "nothing found" warning.

  Each method is proved against the functions above.

## Model

| member | source | states |
|---|---|---|
| CnpjFormat.ScanIsTokenised | app.py:59 | The regex scan (a match needs a non-word character or the start before it, fourteen digits, then a non-word character or the end) equals rewriting the maximal words of the text: a word of exactly fourteen digits is punctuated, and every other word and every non-word character is copied. |
| CnpjFormat.FormatIsTokenised | app.py:56-59 | `formatar_cnpjs_texto` equals the token-wise reference definition on every text, including the empty one. |
| CnpjFormat.FormatEmpty | app.py:56-57 | Empty text gives empty text. |
| CnpjFormat.PunctuateShape | app.py:59 | The replacement `\1.\2.\3/\4-\5` puts `.` `.` `/` `-` at positions 2, 6, 10 and 15, and keeps the fourteen digits in their order. |
| CnpjFormat.TokenisedLength | app.py:59 | The reference rewrite lengthens the text by exactly four characters per rewritten run. |
| CnpjFormat.FormatLength | app.py:56-59 | Output length is input length plus 4 × the number of bounded fourteen-digit runs. |
| CnpjFormat.TokenisedKeepsDigits | app.py:59 | The reference rewrite keeps the sequence of digits of the text unchanged. |
| CnpjFormat.FormatKeepsDigits | app.py:56-59 | Every digit of the input appears in the output in the same order, and no digit is added: only separators are inserted. |
| CnpjFormat.TokenisedPassThrough | app.py:59 | With no fourteen-digit word, the reference rewrite is the identity. |
| CnpjFormat.FormatPassThrough | app.py:56-59 | Text without a bounded fourteen-digit run is returned unchanged. |
| CnpjFormat.TokenisedIdempotent | app.py:59 | Rewriting the rewritten text changes nothing. |
| CnpjFormat.FormatIdempotent | app.py:56-59 | Formatting twice equals formatting once, and the output has no bounded fourteen-digit run left. |
| CnpjFormat.ExampleSingle | app.py:59 | `12345678000199` becomes `12.345.678/0001-99`. |
| CnpjFormat.ExampleTwoNumbers | app.py:59 | Two numbers separated by words and spaces are both punctuated; the words and spaces are kept. |
| CnpjFormat.ExampleShortRun | app.py:59 | A three-digit run is left alone. |
| CnpjFormat.ExampleLongRun | app.py:59 | A fifteen-digit run is left alone: the boundary after digit fourteen fails. |
| CnpjFormat.ExampleGluedRun | app.py:59 | Fourteen digits glued to a letter are left alone: the boundary before the run fails. |
| LinkCatalog.LoadAfterSave | app.py:39-50 | Loading what saving wrote gives back the saved catalog: a readable file is used as it is, so load after save is the identity. |
| LinkCatalog.DefaultIdsArePositional | app.py:18-36 | Every default record's id is its category's initial followed by its 1-based position (`f1`..`f6`, `t1`, `t2`, `j1`..`j3`). |
| LinkCatalog.DefaultIsWellFormed | app.py:18-36 | The default catalog has the three rendered categories, and no two of its records share an id. |
| LinkCatalog.ToggleFav | app.py:52-53 | Toggling negates exactly the addressed record's `fav`. The other fields of that record, every other record, the categories and the category lengths are unchanged. |
| LinkCatalog.ToggleTwice | app.py:52-53 | Toggling the same record twice restores the catalog. |
| LinkCatalog.ToggleKeepsIds | app.py:52-53 | Toggling keeps the set of ids, and keeps them unique. |
| LinkCatalog.Append | app.py:139 | The category grows by one. The new record is last, the earlier records of that category are unchanged, and so are the other categories. |
| LinkCatalog.AddLinkEffect | app.py:132-139 | With a non-empty name and URL, the chosen category becomes one record longer, with `{id, nome, url, fav: false}` last, and every earlier record and every other category is unchanged. With either one empty, the catalog is returned unchanged. |
| LinkCatalog.AppendIds | app.py:139 | Appending adds exactly the new record's id to the set of ids. |
| LinkCatalog.AppendKeepsUnique | app.py:139 | Appending a record with a fresh id keeps ids unique across the catalog. |
| LinkCatalog.AddLinkKeepsUnique | app.py:132-139 | The add-link step keeps ids unique when given a fresh id. When it adds, the id set grows by exactly that id. |
| LinkFilter.Lower | app.py:166 | `str.lower` keeps the length and leaves no upper-case ASCII letter. Each upper-case letter becomes its lower-case partner, and every other character is kept. |
| LinkFilter.LowerIdempotent | app.py:166 | Lower-casing an already lower-cased string changes nothing. |
| LinkFilter.ContainsIff | app.py:166 | The substring test holds exactly when the term occurs at some position of the text. |
| LinkFilter.EmptyTermMatches | app.py:166 | The empty term matches every record. |
| LinkFilter.FilteredOnlyKept | app.py:164-170 | Each pair of the view is a valid index with the record at that index, the record matches the term (and is a favourite under favourites-only), and the indices strictly increase. |
| LinkFilter.FilteredAllKept | app.py:164-170 | Every matching record of the category appears in the view. |
| LinkFilter.NoFilterListsAll | app.py:164-170 | With an empty term and favourites-only off, the view is `(0, l0), (1, l1), …`: every record at its own index. |
| LinkFilter.FavouritesOnlyIsSubsequence | app.py:166-170 | The favourites-only view is the plain search view with the non-favourites removed, in order. |
| LinkFilter.FilteredEmptyIff | app.py:164-170 | The view is empty exactly when no record of the category matches. |
| Dashboard.Store.constructor | app.py:62-63 | The session catalog is what loading gives. From an unreadable file it has the three categories and unique ids. |
| Dashboard.Store.Save | app.py:48-50 | Afterwards the data file holds exactly the session catalog, and loading it gives that catalog back. |
| Dashboard.Store.ToggleFavorite | app.py:52-54 | The new catalog is `ToggleFav` of the old one, the flag is negated, ids are unchanged and stay unique, and the file is saved. |
| Dashboard.Store.AddLink | app.py:132-140 | Adds exactly when the name and URL are non-empty. The new catalog is `AddLink` of the old one. When it adds, the file is saved and the ids grow by the new id; otherwise the file is untouched. Unique ids stay unique. |
| Dashboard.Store.FilterCategory | app.py:161-170 | The loop's list is `Filtered` of the category's records. A missing category (`.get(…, [])`) gives the empty list. |
| Dashboard.Store.CategoryShown | app.py:161-176 | The heading is drawn exactly when the term is empty and favourites-only is off, or some record of the category is kept. |
| Dashboard.Store.AllEmpty | app.py:210-217 | The nested loop with `break` ends with `todos_vazios` true exactly when the filter view of each of the three categories is empty. |

## Left out

- The Streamlit interface is not modelled: page setup, CSS, sidebar, scratch pad and its clear button, the card grid, `st.rerun` and messages. It is presentation with no state the core reads, apart from the widget values. Those values become parameters: the search term, the favourites switch, and the category, name and URL of the form.
- The form's `submitted` flag is not modelled. `Store.AddLink` is the step as run after a submit.
- File I/O is abstracted:
  - reading the data file is the `ReadResult` input of `Load` and of the constructor;
  - writing it is the `salvo` field, set to the whole catalog;
  - a failed write (an exception in the source) is not modelled.
- The JSON schema is not checked. The file is assumed to hold a well-typed catalog: a map from category to a list of `{id, nome, url, fav}` records.
- `uuid.uuid4()` is not modelled. The id is a parameter of `AddLink` with the precondition that it is not already in the catalog.
- Only ASCII is modelled for Python's `str.lower`, `\d` and `\b`. Lower-casing maps `A`–`Z` only, a digit is `0`–`9`, and a word character is an ASCII letter, digit or `_`. Non-ASCII digits and letters count as non-word characters.
- Dashboard.Store.AddLink: requires the category to be present. The source indexes `dados[cat_opt]` and would raise `KeyError` for a loaded catalog that lacks it.
- Dashboard.Store.AllEmpty: requires the three categories. The source indexes `dados[cat]` at app.py:213, while the filter uses `.get(…, [])` at app.py:161. A catalog read from a file without one of them makes the source raise `KeyError`.
- Dashboard.Store.ToggleFavorite: requires a valid category and index. The page only calls it with an index taken from the filtered view.
