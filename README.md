# Colour rules of the irisbot `Colors` cog

A Dafny model of the deterministic core of `colors.py`, the module of the
irisbot Discord bot that lets members pick a name colour. Each colour is a
role, named after its hex code and shared by every member who picked that
colour. The model covers:

- **Codec** (`codec.dfy`, module `ColorCodec`): a colour is the packed
  24-bit value of a `discord.Color`.
  - `hex2color` parses an optional `#` followed by 3 or 6 hex digits; the
    3-digit shorthand doubles each digit.
  - `from_rgb` clamps, truncates and packs three channels.
  - `str(color)` formats a colour as `#rrggbb`.
- **Reduced palette** (`quantizer.dfy`, module `Quantizer`): `quantize`
  and `rgb9`, computed on the bits of a byte.
- **Bisection** (`bisection.dfy`, module `Bisection`): `bisection_search`
  is an imperative loop. It is proved against a step function on the
  interval and the predicate values at its ends.
- **Luminance clamp** (`luminance.dfy`, module `Luminance`): the control
  structure of `clamp_luminance` and `scale_color`. The luminance formula
  is a parameter.
- **Sanitising** (`sanitize.dfy`, module `Sanitize`): the two
  substitutions of `sanitize_markdown`.
- **Resolution** (`resolver.dfy`, module `Resolver`): `get_color_info`
  tries, in order, a hex code, an exact colour name, then a single fuzzy
  candidate. The name service (`colornames.find_exact`,
  `colornames.disambiguate`) is passed in as two functions.
- **Suggestions** (`candidates.dfy`, module `Candidates`): the list that
  `say_color_ambiguous` shows. Candidates are sorted by (length, text);
  the first ten are shown and the rest are counted.
- **Colour roles** (`roles.dfy`, module `ColorRoles`):
  - `ROLE_REGEX`, `key_for_role` and `is_color_role`.
  - A `RoleCache` class holds the server's colour roles and performs the
    get-or-create of `role_for_color`.
  - A `Member` class holds a member's role list, which `set_color`
    overwrites.
  - The deletion loop of `purgecolors`.
- **Option and Result** (`wrappers.dfy`, module `Wrappers`).

Settings read through `utils.setting` are parameters:
- `ROLE_PREFIX` is `RoleCache.prefix`;
- the luminance range is `minL`/`maxL`.

The role cache's `get_role` and `all_roles` are the `roles` field of
`RoleCache`, searched by key. Role ids come from a counter, `nextId`,
which stands in for the server.

## Model

| member | source | states |
|---|---|---|
| ColorCodec.Pack | colors.py:60 | `r << 16 \| g << 8 \| b` on three bytes gives a colour whose red, green and blue channels are exactly `r`, `g`, `b` |
| ColorCodec.PackChannels | colors.py:60 | every colour is the packing of its own three channels, so packing is onto |
| ColorCodec.ClampChannel | colors.py:59 | `int(max(0, min(x, 255)))` is 0 at or below 0, 255 at or above 255, and otherwise the integer `v` with `v <= x < v + 1` |
| ColorCodec.FromRgb | colors.py:56-60 | each channel of `from_rgb(r, g, b)` is that input clamped to [0, 255] and truncated |
| ColorCodec.FromRgbBytes | colors.py:56-60 | integer channels already in [0, 255] pack to `r*65536 + g*256 + b` and unpack to exactly themselves |
| ColorCodec.HexValue | colors.py:53 | reading `k` hex digits gives a value below `16^k`, so six digits fit in 24 bits |
| ColorCodec.HexValueAppend | colors.py:53 | reading `a + b` reads `a`, shifts it by `\|b\|` digits and adds `b` |
| ColorCodec.Hex2Color | colors.py:44-54 | `hex2color` succeeds iff the code after one optional `#` has 3 or 6 characters, all hex digits; it fails with the length error iff that length is neither 3 nor 6 |
| ColorCodec.DoubledHex | colors.py:49-50 | the shorthand expansion (each character doubled) is all hex digits iff the shorthand is |
| ColorCodec.Format | colors.py:167-169 | `str(color)` is seven characters: `#` then six lower-case hex digits |
| ColorCodec.Hex2ColorFormat | colors.py:44-54 | round trip: `hex2color(str(c)) == c` for every colour |
| ColorCodec.FormatHex2Color | colors.py:44-54 | six hex digits parse, with or without `#`, to the colour whose `str` is `#` plus those digits lower-cased |
| ColorCodec.Hex2ColorLower | colors.py:53 | parsing is case-insensitive: a lower-cased code parses to the same result, error or colour |
| ColorCodec.Hex2ColorShorthand | colors.py:49-50 | a 3-digit code parses to the colour whose channels are `0x11` times each digit |
| ColorCodec.Hex2ColorExamples | colors.py:203-204 | the help-text codes parse: `#413` to `0x441133` and `#F0000D` to `0xf0000d`; `#fff` parses to white; `#ffff` fails with the length error |
| Quantizer.QuantizeBits | colors.py:33-37 | `quantize` keeps the top three bits of the byte (`r & 0xE0 == x & 0xE0`) and repeats them in bits 4 to 2 |
| Quantizer.Quantize | colors.py:33-37 | a quantized channel is one of the eight levels 0, 0x24, ..., 0xFF and lies in the same 32-wide band as the input |
| Quantizer.QuantizeIdempotent | colors.py:33-37 | quantizing twice is quantizing once |
| Quantizer.QuantizeLevels | colors.py:33-37 | there are exactly eight levels and each is its own quantization; 0 maps to 0 and 255 to 255 |
| Quantizer.Rgb9 | colors.py:39-42 | each channel of `rgb9(c)` is the quantization of that channel of `c` |
| Quantizer.Rgb9Idempotent | colors.py:39-42 | reducing an already reduced colour changes nothing |
| Bisection.StepsWithin | colors.py:77-84 | from `a0 <= b0`, after `n` iterations the interval stays inside `[a0, b0]` and its width is `(b0 - a0) / 2^n` |
| Bisection.StepsValues | colors.py:74-84 | throughout the loop `fa == f(a)` and `fb == f(b)`; `f(a)` keeps its starting value; `b` is either still `b0` or has the other value of `f` |
| Bisection.PickHolds | colors.py:86 | if `f` holds at either starting end, it holds at the returned endpoint |
| Bisection.StepsBracket | colors.py:77-84 | when `f` differs at the two starting ends, it differs at the two ends after every iteration, with the same values |
| Bisection.BisectionSearch | colors.py:73-86 | the loop returns the endpoint the `n`-step specification picks; the result lies in `[a0, b0]` when `a0 <= b0`; `f` holds there if it held at either starting end |
| Luminance.Fraction | colors.py:100 | `max(x, 0.5) / 255` lies in (0, 1] and is `x / 255` for every non-zero channel |
| Luminance.ClampLuminance | colors.py:94-112 | the method returns the colour the specification gives: brightened by the factor from a search over [1, 255] when below the band, darkened by the factor from a search over [0, 1] when above it, unchanged inside it |
| Luminance.Clamped | colors.py:94-112 | a colour whose luminance lies in the band is returned unchanged; a too-dark colour is rescaled by the brightening factor, a too-bright one by the darkening factor |
| Luminance.BrightenFactorMeets | colors.py:103-106 | the brightening factor lies in [1, 255]; if scaling by 255 reaches the minimum luminance, scaling by the chosen factor reaches it too |
| Luminance.DarkenFactorMeets | colors.py:107-110 | the darkening factor lies in [0, 1]; if scaling by 0 stays under the maximum luminance, scaling by the chosen factor does too |
| Sanitize.Desparkle | colors.py:139 | removing `*`, `_` and `` ` `` leaves no such character; the result is never longer and holds only characters of the input |
| Sanitize.DesparkleAppend | colors.py:139 | removing markup works character by character: it splits over concatenation, drops a single markup character and keeps any other one, blanks included |
| Sanitize.Despace | colors.py:140 | after collapsing blank runs, every blank is a plain space and no two spaces are adjacent; the result is empty iff the input is; it starts with a space iff the input starts with a blank |
| Sanitize.DespaceAppend | colors.py:140 | collapsing blanks splits over a concatenation whose first part ends in a character that is not a blank |
| Sanitize.DespaceRun | colors.py:140 | a run of blanks before a character that is not a blank becomes a single space |
| Sanitize.DespaceCollapses | colors.py:140 | a maximal run of blanks between two other characters becomes exactly one space, so words stay apart |
| Sanitize.DespaceNoMarkup | colors.py:140 | collapsing blanks brings in no markup character |
| Sanitize.SanitizeMarkdown | colors.py:138-141 | the output contains no `*`, `_`, `` ` ``, tab, line feed or carriage return, and never two spaces in a row |
| Sanitize.DesparkleClean | colors.py:139 | a string without markup is left unchanged by the first substitution |
| Sanitize.DespaceClean | colors.py:140 | a string whose only blanks are single spaces is left unchanged by the second substitution |
| Sanitize.SanitizeIdempotent | colors.py:138-141 | sanitizing twice is sanitizing once |
| Sanitize.ContentDesparkle | colors.py:139 | the first substitution keeps every character that is neither markup nor blank, in order |
| Sanitize.ContentDespace | colors.py:140 | the second substitution keeps every character that is neither markup nor blank, in order |
| Sanitize.SanitizeKeepsContent | colors.py:138-141 | sanitizing removes only markup and blanks: all other characters survive, in order |
| Resolver.IsHexPattern | colors.py:114 | a string fully matches `#?([0-9A-Fa-f]{3}\|[0-9A-Fa-f]{6})` exactly when `hex2color` accepts it, so every match parses and every parseable code matches |
| Resolver.FromEntry | colors.py:127-128 | a name-service entry resolves iff its code parses, to that colour and the one canonical name |
| Resolver.GetColorInfo | colors.py:115-136 | a resolved colour comes with at most one name; the result is unresolved iff the input is not a hex code, has no exact entry, and does not have exactly one candidate; an unresolved result carries the candidate list |
| Resolver.HexBypassesNames | colors.py:122-123 | a hex code resolves to its own colour with no names, whatever the name service answers |
| Resolver.ExactNameResolves | colors.py:125-128 | a non-hex name with an exact entry resolves to that entry's colour and canonical name |
| Resolver.UniqueCandidateResolves | colors.py:130-134 | a name with no exact entry and exactly one candidate resolves as that candidate's exact entry, or fails when the candidate has none |
| Resolver.ResolveExamples | colors.py:122-123 | `#413` (a code from the help text) resolves to `0x441133` and `#bad` (a code that is also a word) to `0xbbaadd`, both without consulting names |
| Candidates.TextLessIrreflexive | colors.py:287 | Python string `<` is irreflexive |
| Candidates.TextLessTransitive | colors.py:287 | Python string `<` is transitive |
| Candidates.TextLessTotal | colors.py:287 | two distinct strings are ordered one way or the other |
| Candidates.KeyLessOrder | colors.py:287 | the key `(len(c), c)` orders candidates strictly and totally |
| Candidates.Insert | colors.py:287 | inserting into a sorted list gives a sorted list with the same elements plus the new one |
| Candidates.SortByKey | colors.py:287 | `sorted(candidates, key=(len, text))` is sorted and a permutation of its input |
| Candidates.Suggest | colors.py:285-291 | at most ten candidates are shown, and exactly `min(10, n)`; shown plus counted equals `n`; the shown list is sorted and drawn from the candidates; any candidate sorting before a shown one is itself shown, and no candidate left unshown (counting repeated names by copy) sorts before a shown one |
| ColorRoles.ColorRoleCode | colors.py:163-164 | a role is a colour role iff its name is `ROLE_PREFIX` followed by a seven-character code that starts with `#` and that `hex2color` accepts |
| ColorRoles.KeyForRole | colors.py:158-164 | a role has a key iff its name is `ROLE_PREFIX` + `#` + six hex digits; the key is seven characters, `#` then lower-case hex |
| ColorRoles.KeyIsFormat | colors.py:158-161 | the `#xxxxxx` part of a colour role's name parses, and the role's key is the `str` of that colour: the code lower-cased, so a role named in upper case is found under the lower-case key |
| ColorRoles.FormatNameKey | colors.py:167-169 | a role named `ROLE_PREFIX + str(color)` is a colour role whose key is `str(color)` |
| ColorRoles.ColorRolesMember | colors.py:174 | `filter(is_color_role, roles)` holds exactly the colour roles of the list; the rest are the other roles |
| ColorRoles.WithoutIdsMember | colors.py:180 | `[r for r in roles if r.id not in ids]` keeps exactly the roles whose id is not listed |
| ColorRoles.ResetRolesSpec | colors.py:174-176 | after a reset (`ResetRoles`) the member holds no colour role; with unique ids, exactly the other roles stay, in order |
| ColorRoles.AssignedRolesSpec | colors.py:174-181 | after an assign (`AssignedRoles`), the member's only colour role is the new one, held exactly once; the other roles stay; with unique ids the list is the other roles in order followed by the new role |
| ColorRoles.FindKey | colors.py:167 | a found role is in the list and has the key asked for; a miss means no role in the list has that key |
| ColorRoles.RoleCache.GetRole | colors.py:167 | a found role is one of the cache's roles with the key asked for; a miss means none of them has that key |
| ColorRoles.RoleCache.RoleForColor | colors.py:166-171 | the returned role is a colour role of the cache keyed `str(color)`; an existing role is reused and the cache left unchanged; otherwise a role named `ROLE_PREFIX + str(color)` is appended under a fresh id |
| ColorRoles.RoleCache.SetColor | colors.py:173-181 | with no colour the member's roles become the reset list; with a colour they become the assigned list for the role `role_for_color` gives, which is reused when one exists for the key and created otherwise |
| ColorRoles.HeldIdsMember | colors.py:256-258 | an id is in `used_roles` iff some member holds a role with that id |
| ColorRoles.PurgeMember | colors.py:255-263 | the sweep keeps (`Kept`) exactly the held colour roles and deletes (`Purged`) exactly the unheld ones |
| ColorRoles.KeptPurgedSplit | colors.py:259-263 | every colour role is either kept or deleted, so the count of deleted roles is at most the number of colour roles |
| ColorRoles.PurgeSpec | colors.py:255-263 | a role any member holds is never deleted; the count of deleted roles is at most the number of colour roles |
| ColorRoles.KeptDistinctKeys | colors.py:259-263 | if no two roles share a key before the sweep, none do after it |
| ColorRoles.RoleCache.PurgeColors | colors.py:255-263 | the cache keeps exactly the colour roles whose id some member holds, in order; `deleted` is the number of the others; no id is handed out; one role per key still holds afterwards |
| ColorRoles.RoleCache.Sweep | colors.py:259-263 | the loop over the snapshot of colour roles deletes exactly the unheld ones and counts them |
| ColorRoles.RoleCache.SweepRole | colors.py:260-263 | one iteration deletes the role iff its id is unheld and advances the sweep state by one role |

## Left out

- `relative_luminance` (colors.py:68-71) is not modelled. Its floating-point `** 2.4` has no counterpart on Dafny reals, so the luminance function is a parameter of `Luminance.Clamped` and `Luminance.ClampLuminance`.
- Floating point: channel fractions, scale factors and the bisection midpoint are exact reals, not IEEE doubles.
- Luminance.BrightenFactorMeets: states that the scaled fractions reach the band. It does not state that the truncated colour `from_rgb` builds from them does, because truncation can step back below the band.
- Luminance.DarkenFactorMeets: states that the scaled fractions stay under the band's upper edge. It does not state that the truncated colour `from_rgb` builds from them does; truncation only lowers channels, but the luminance formula is a parameter with no monotonicity assumed.
- `test_luminance` (colors.py:62-66) is a float helper that does not change behaviour.
- `generate_swatch` and `send_swatch` (colors.py:22-31, 267-276) do image rendering and Discord file upload.
- The async command plumbing is not modelled; these are messaging only:
  - `swatch`, `color`, `reset`, the permission check, `send_typing`;
  - every reply text, including `say_color_unknown`, `say_color_removed` and the message that `say_color_ambiguous` builds from the selected candidates.
- The `color` command's chain of calls (colors.py:208-225) is not modelled as one operation: sanitise, resolve, optionally `rgb9`, clamp, `set_color`. Each step is modelled on its own.
- `colornames`, `rolecache` and `utils` are not part of this model:
  - the name service is two function parameters;
  - the role cache is the `roles` field of `RoleCache`;
  - the settings are parameters.
- ColorCodec.Hex2Color: Python's `int(code, base=16)` also accepts `0x`, `_` separators, a sign and surrounding whitespace. The model treats every non-hex-digit character as the parse error. The regex at colors.py:114 never passes such input.
- ColorRoles.RoleCache.RoleForColor: the check-then-create is sequential. Two concurrent calls can both create a role for the same colour, and the model does not capture that interleaving.
- ColorRoles.RoleCache.RoleForColor: the created role's `position=1` and its colour attribute on the server are not tracked beyond the `color` field.
- ColorRoles.RoleCache.SetColor: `remove_roles` and `replace_roles` are modelled by their effect on the member's role list. Removal is by role id.
- ColorRoles.RoleCache.Sweep: every server call (`create_role`, `delete_role`, `replace_roles`, `remove_roles`) succeeds in the model. If a `delete_role` raised partway through the loop at colors.py:260-263, the roles already deleted would stay deleted and no count would be reported; neither `Sweep` nor `ColorRoles.RoleCache.SetColor` can show that partial state.
- Role ids come from the cache's counter instead of the server. Ids within one list are assumed unique only where a lemma says so.
- `adminhelp` (colors.py:150-156) only counts the cache's roles for a message.
