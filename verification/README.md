# DAMDFE renderer: the decision logic

`brazilfiscalreport/damdfe/damdfe.py` draws the DAMDFE. This is the printed
companion of an electronic transport manifest (MDF-e). Almost all of the file
is fixed-position drawing. This project models the few pieces of it that make
decisions or build text:

- **Route line** (`PERCURSO`). The `UFPer` value of every child of `ide` is
  joined with `" / "`, and at most one trailing separator is trimmed.
  Modelled in `route.dfy`.
- **Linked document keys.** The non-empty `chNFe` values under
  `infMunDescarga` are kept in document order. They are laid out two per row,
  each beside the unloading municipality. The loop also computes the
  `num_lines` counter, the box's `total_height` and the final `current_y`.
  Modelled in `linked_documents.dfy`.
- **Decisions.** These cover three things. The access key is the `Id`
  attribute of `infMDFe` minus its first four characters. The
  "SEM VALOR FISCAL" watermark is drawn unless the environment is production
  and the protocol element is truthy. The barcode's x-offset is looked up from
  the right margin in the partial `margins_offset` table. Modelled in
  `decisions.dfy`.

Each XML child is represented by the string already extracted from it. The
extraction (`get_tag_text`) is not part of this model. The model assumes it
yields `""` for a child without the tag. Python exceptions become
`Result.Failure` values (`wrappers.dfy`).

`text.dfy` holds the string notions shared by the modules: `endswith`, the
non-empty filter with its index characterisation, and `str.join`.

The box around the linked keys is sized from `num_lines`, and `num_lines`
counts keys, not rows. So `total_height` is `4 * n` for `n` keys, while the
rows advance `4 * ceil(n / 2)`. `LinkedDocuments.LayOutKeys` states both
values exactly. The model does not judge which one was intended.

## Model

| member | source | states |
|---|---|---|
| Route.Accumulate | brazilfiscalreport/damdfe/damdfe.py:78-83 | the text built by the loop is empty exactly when every extracted `UFPer` value is empty, including when there are no children |
| Route.TrimSeparator | brazilfiscalreport/damdfe/damdfe.py:84-86 | the trim removes one trailing `" / "` when present, so that putting it back restores the input; otherwise the input is unchanged |
| Route.BuildRoute | brazilfiscalreport/damdfe/damdfe.py:77-87 | the route is empty exactly when all values are empty, or when the only non-empty value is a last value equal to `" / "` (the trim removes it) |
| Route.RouteEmptyIffAllEmpty | brazilfiscalreport/damdfe/damdfe.py:77-87 | when no value is the bare separator, the route is empty exactly when every value is empty |
| Route.LeadingEmptiesIgnored | brazilfiscalreport/damdfe/damdfe.py:81-83 | leading children with an empty value add nothing, so there is no leading separator |
| Route.AccumulateAfterStart | brazilfiscalreport/damdfe/damdfe.py:81-83 | once something has been written, every later child adds `" / "` and then its own value, even an empty one |
| Route.FirstValueLeads | brazilfiscalreport/damdfe/damdfe.py:79-83 | the text starts with the first non-empty value, and each later child adds a separator and its value |
| Route.RouteIsJoin | brazilfiscalreport/damdfe/damdfe.py:79-86 | with all values non-empty, the route equals the values joined by `" / "` in document order exactly when the last value does not end in `" / "` and, after another value, is not `"/ "` |
| Route.SlashSpaceLastIsTrimmed | brazilfiscalreport/damdfe/damdfe.py:84-86 | a concrete case of the `"/ "` exception: values SP, `"/ "` render as `"SP /"`, not as their join `"SP / / "` |
| Route.TrailingEmptiesKeepSeparators | brazilfiscalreport/damdfe/damdfe.py:79-86 | k >= 1 empty trailing children after written text leave k - 1 separators behind, because the trim removes only one |
| Route.TwoTrailingEmptiesExample | brazilfiscalreport/damdfe/damdfe.py:79-86 | values MG, SP, "", "" render as `"MG / SP / "` |
| Route.IntendedRoute | brazilfiscalreport/damdfe/damdfe.py:77-87 | the corrected route (non-empty values joined by `" / "`) is empty exactly when every value is empty |
| Route.IntendedRouteIgnoresTrailingEmpties | brazilfiscalreport/damdfe/damdfe.py:84-86 | trailing children without a value do not change the corrected route |
| Route.IntendedRouteNoTrailingSep | brazilfiscalreport/damdfe/damdfe.py:84-86 | the corrected route never ends in `" / "` when no value ends in `" / "` or is `"/ "` |
| Route.RouteAgreesWithIntended | brazilfiscalreport/damdfe/damdfe.py:77-87 | on input with no empty values and a last value that neither ends in `" / "` nor is `"/ "`, the route as written equals the corrected route |
| Text.NonEmptyOnly | brazilfiscalreport/damdfe/damdfe.py:71-74 | the kept keys are all non-empty, at most as many as the children, and nothing is kept exactly when every value is empty |
| Text.NonEmptyOnlyCounts | brazilfiscalreport/damdfe/damdfe.py:71-74 | each non-empty string is kept exactly as often as it occurs among the children |
| Text.NonEmptyOnlyByIndex | brazilfiscalreport/damdfe/damdfe.py:71-74 | the k-th kept key is the value at the k-th non-empty position |
| LinkedDocuments.BuildKeyList | brazilfiscalreport/damdfe/damdfe.py:69-75 | the append loop produces exactly the filtered key list |
| LinkedDocuments.KeyListIsOrderedSubsequence | brazilfiscalreport/damdfe/damdfe.py:69-75 | the key list is the non-empty values at strictly increasing positions, and every non-empty position is among them |
| LinkedDocuments.LayOutKeys | brazilfiscalreport/damdfe/damdfe.py:922-965 | there are ceil(n/2) rows; row k has key 2k on the left, and key 2k+1 on the right exactly when 2k+1 < n; reading the rows back gives every key once, in order; `num_lines` = n, `total_height` = 4n, and `current_y` advances 4 per row |
| Decisions.DropPrefix | brazilfiscalreport/damdfe/damdfe.py:57 | `Id[4:]`: the first four characters followed by the key give back the `Id`; an `Id` shorter than four characters gives the empty key |
| Decisions.AccessKey | brazilfiscalreport/damdfe/damdfe.py:48-57 | a missing `infMDFe` raises AttributeError; a missing `Id` raises TypeError; otherwise the key is what follows the first four characters of `Id` (empty when `Id` is shorter) |
| Decisions.AccessKeyRoundTrip | brazilfiscalreport/damdfe/damdfe.py:57 | for any four-character prefix, the key written after it comes back unchanged |
| Decisions.WatermarkOps | brazilfiscalreport/damdfe/damdfe.py:89-112 | nothing is drawn exactly when `tpAmb` is `"1"` and the protocol element is truthy; otherwise the rotated "SEM VALOR FISCAL" text is drawn and the colour is restored to black |
| Decisions.OffsetFor | brazilfiscalreport/damdfe/damdfe.py:366-367 | an offset exists exactly for a right margin equal to a whole number from 1 to 10, and it lies between 4 and 8 mm |
| Decisions.OffsetNonIncreasing | brazilfiscalreport/damdfe/damdfe.py:366 | a wider right margin never gets a larger barcode offset |
| Decisions.BarcodeX | brazilfiscalreport/damdfe/damdfe.py:366-369 | the barcode x is `x_middle` plus an offset of 4 to 8 mm for margins 1 to 10; any other margin makes `x_middle + None` raise TypeError |

## Findings

| source | as written | input that shows it | evidently intended | confidence | as-written member | corrected member |
|---|---|---|---|---|---|---|
| brazilfiscalreport/damdfe/damdfe.py:79-86 | every child of `ide` after the first non-empty `UFPer` adds `" / "`, and only one trailing separator is trimmed | `ide` children whose extracted values are MG, SP, "", "" (two children after the last `infPercurso`) give `"MG / SP / "` | the non-empty values joined by `" / "`, with no trailing separator (the comment on line 84 says the extra slash is removed) | medium, not executed; assumes `get_tag_text` yields "" for a child without `UFPer` | Route.TrailingEmptiesKeepSeparators | Route.IntendedRoute |

## Left out

- All fpdf drawing: rectangles, lines, text cells, fonts, colours, rotation, images and the logo. These are side effects in a library outside this model. The watermark is kept only as a list of abstract draw operations, without coordinates.
- Code128 barcode and QR-code generation. These are foreign libraries.
- XML parsing (`ET.fromstring`, `root.find`). Each child is given as its extracted string. The protocol element is given only by its child count, which is all Python's `bool()` looks at.
- A missing `ide` or `infMunDescarga` element. `root.find` then returns None, and the `for` loops at damdfe.py lines 79 and 71 raise TypeError. The route and key builders take the children as a sequence, so this error path is not modelled.
- `get_tag_text`, `format_cep`, `format_phone`, `format_cpf_cnpj`, `format_number`, `get_date_utc` and the `TP_*` tables in `damdfe_conf`. They are not part of this model.
- Floating-point layout: the watermark centring, the column positions of `draw_vertical_lines_left` and `draw_vertical_lines_right`, and the hard-coded offsets. `current_y` and the barcode x are exact reals, with no rounding.
- `DamdfeConfig` and the margin set-up. The right margin is a parameter.
- Decisions.WatermarkOps: does not model `get_string_width` or the page size, because they only feed the floating-point centring.
