# Hexplorer in Dafny

Hexplorer is a terminal colour explorer. It keeps one number, the current
decimal index of a 24-bit colour (0 to 16777215). The user moves that index
with commands (`n`, `p`, `j`, `i`, `r`), or derives things from the current
colour: a mix with a second colour (`m`, `mixr`, `mixi`), a gradient
(`grad`), a harmony scheme (`cs`), an export file (`export`), the scheme of
a random base (`rcs`).

This project models the integer core of `hexplorer/main.py` and proves its
properties:

- `hex_codec.dfy` (module `HexCodec`): the three forms of a colour and the
  conversions between them.
  - A code is six hexadecimal digits. `is_valid_hex` is modelled as the
    regular expression it uses, and proved equal to "six digits of either
    case".
  - A triple of bytes: `hex_to_rgb` and `rgb_to_hex`.
  - A decimal index: `int(s, 16)` and `f"{n:06X}"`.
  - Round trips in both directions, including upper-casing.
- `decimal_text.dfy` (module `DecimalText`): `str.isdigit`, `int` and `str`
  on decimal text, as the index, step-count and file-name code uses them.
- `color_math.dfy` (module `ColorMath`):
  - the negative of an index;
  - `mix_colors`, `generate_gradient` (the loop that builds the list),
    `generate_scheme` and `generate_random_scheme` for a given base;
  - the export file names.
- `session.dfy` (module `Session`):
  - the command words and the transition of `current_dec` per command;
  - what each command produces;
  - the class `Explorer`, whose `current` field the `Step` method updates
    like one round of `main`'s `while True` loop, and whose `Run` method
    replays a script of rounds;
  - the retry loop of `ask_start_hex`.

Input and randomness are parameters. A "command line" is the word that
`input().strip().lower()` returned. The answers to the follow-up prompts are
strings. Every `random.randint(0, MAX_DEC)` draw is an integer argument in
range.

As written, `hexplorer/main.py` does not parse. Line 1 is a stray sentence.
The `"""` on line 180, inside `get_color_metadata`'s dictionary, is closed
by the `"""` that opens line 305, so lines 181-304 are one string literal
and the rest of line 305 is bare text. The model follows the evident logic
of the functions as laid out.

## Model

| member | source | states |
|---|---|---|
| HexCodec.IsValidHex | hexplorer/main.py:154-155 | the full match of `[0-9A-Fa-f]{6}` holds exactly when the string has six characters that are all hexadecimal digits; such a string can be read by `hex_to_rgb` |
| HexCodec.ParseHex | hexplorer/main.py:144-146 | `int(s, 16)` of k digits is below 16^k |
| HexCodec.FormatHex | hexplorer/main.py:151 | the `0wX` format gives upper-case digits, at least `width` of them (exactly `width` when the value fits, and with no leading zero when it needs more), that parse back to the value |
| HexCodec.CanonicalUnique | hexplorer/main.py:151 | two upper-case digit strings of the same length and value are the same string, so the padded format has one spelling per value |
| HexCodec.HexToRgb | hexplorer/main.py:143-147 | `hex_to_rgb` reads the three channels from the digit pairs at 0-2, 2-4 and 4-6; what they mean is stated by HexToRgbPack (they recombine to the index of the first six digits), by RgbToHex (it is the inverse of `rgb_to_hex`) and by RgbHexRoundTrip |
| HexCodec.HexToRgbPack | hexplorer/main.py:143-147 | the three channels read from the digit pairs at 0-2, 2-4 and 4-6 recombine to `int(s[:6], 16)`: later characters play no part |
| HexCodec.RgbToHex | hexplorer/main.py:150-151 | six upper-case digits that `hex_to_rgb` reads back as the same three bytes |
| HexCodec.HexToIndex | hexplorer/main.py:461 | the index of a valid code is r*65536 + g*256 + b of its channels |
| HexCodec.IndexToHex | hexplorer/main.py:442 | `f"{n:06X}"` of an index in range is a valid six-digit upper-case code whose index is n |
| HexCodec.UpperValid | hexplorer/main.py:461 | upper-casing a valid code keeps it valid, makes it upper-case, and keeps its index and channels |
| HexCodec.FormatParse | hexplorer/main.py:151 | formatting the value of a digit string to its own width gives the upper-cased string |
| HexCodec.RgbHexRoundTrip | hexplorer/main.py:143-151 | `rgb_to_hex(hex_to_rgb(s))` is the upper-cased s for every valid s |
| HexCodec.IndexHexRoundTrip | hexplorer/main.py:461 | formatting the index of a valid code gives that code upper-cased |
| HexCodec.PackInjective | hexplorer/main.py:179 | distinct colours have distinct decimal indices |
| DecimalText.ParseDecimal | hexplorer/main.py:467 | `int` of k decimal digits is below 10^k |
| DecimalText.DecimalString | hexplorer/main.py:235 | `str(n)` is a non-empty digit string with no leading zero that parses back to n |
| DecimalText.DecimalStringOfParse | hexplorer/main.py:235 | a digit string with no leading zero is `str` of its own value |
| ColorMath.Clamp | hexplorer/main.py:369 | `clamp_color` keeps a byte unchanged, and sends values above 255 to 255 and values below 0 to 0 |
| ColorMath.ComplementInvolution | hexplorer/main.py:289 | taking 255 minus each channel twice gives the colour back |
| ColorMath.Negative | hexplorer/main.py:443 | the index `MAX_DEC - n` is in range, and it is the colour whose every channel is 255 minus that of n |
| ColorMath.NegativeInvolution | hexplorer/main.py:443 | the negative of the negative is the original index |
| ColorMath.NegativeHex | hexplorer/main.py:258 | the negative of a valid code is a valid upper-case code with complemented channels |
| ColorMath.MixRgb | hexplorer/main.py:249 | each mixed channel lies between the two input channels, and is the floor of their mean |
| ColorMath.MixColors | hexplorer/main.py:246-263 | the mixed code is valid, upper-case and has the channel-wise mean; its negative is valid, upper-case and has complemented channels; the export file is `hexplorer_mix_<hex1>_<hex2>.json` |
| ColorMath.MixCommutative | hexplorer/main.py:249 | swapping the operands gives the same mixed code and negative |
| ColorMath.MixSelf | hexplorer/main.py:249-250 | mixing a valid code with itself gives the code upper-cased |
| ColorMath.MixRedBlue | hexplorer/main.py:246-250 | `FF0000` mixed with `0000FF` is `7F007F` |
| ColorMath.Lerp | hexplorer/main.py:273-275 | an interpolated channel lies between the two end channels, and equals the first at step 0 and the second at the last step |
| ColorMath.LerpTruncates | hexplorer/main.py:273-275 | the channel is the truncation of `a + (b - a) * i / steps`: `steps * (v - a) <= (b - a) * i < steps * (v - a) + steps` |
| ColorMath.StepCode | hexplorer/main.py:273-276 | the code of step i is a valid upper-case code that reads back as the interpolated channels |
| ColorMath.Gradient | hexplorer/main.py:266-278 | the list `generate_gradient` builds, one StepCode per step 0 to `steps`; its meaning is stated by GradientShape, GradientEnds and LerpTruncates, and GenerateGradient is proved to build exactly this list |
| ColorMath.GradientShape | hexplorer/main.py:266-278 | a gradient of `steps` has steps + 1 valid upper-case codes; the first and last have the channels of the two ends; every channel lies between the ends' channels |
| ColorMath.GradientEnds | hexplorer/main.py:272-276 | for valid ends the first and last codes are the upper-cased end codes |
| ColorMath.GenerateGradient | hexplorer/main.py:266-278 | the loop appends one code per step and builds exactly the gradient: steps + 1 codes with the ends' channels at both ends |
| ColorMath.GradientFilenameInjective | hexplorer/main.py:235 | two gradients between six-digit codes share the file name `hexplorer_gradient_<hex1><hex2><steps>.json` only when the ends and step counts coincide |
| ColorMath.HarmonyScheme | hexplorer/main.py:288-296 | seven entries named Complementary, Analogous 1/2, Triadic 1/2 and Tetradic 1/2, in that order |
| ColorMath.HarmonySchemeProperties | hexplorer/main.py:288-295 | Complementary undoes itself; the triadic rotations undo each other; the analogous entries move only green, by up to 30, stopping at 0 or 255; the tetradic entries complement red and green, or only blue |
| ColorMath.RotationsInverse | hexplorer/main.py:292-293 | the rotations `(b, r, g)` and `(g, b, r)` are inverse, and three right rotations are the identity |
| ColorMath.HarmonySchemeOfBlack | hexplorer/main.py:288-291 | for black the first three entries are `FFFFFF`, `001E00` and `000000` |
| ColorMath.GenerateRandomScheme | hexplorer/main.py:354-388 | the base code is the valid upper-case code of the drawn index; the first five entries equal those of `generate_scheme`; Tetradic 1 repeats Complementary; Tetradic 2 is Complementary with green raised by 30, stopping at 255 |
| ColorMath.RandomSchemeTetradic | hexplorer/main.py:379-380 | in every random scheme Tetradic 1 is the complement of the base and Tetradic 2 the complement with green raised by 30, capped at 255 |
| ColorMath.TetradicRulesDiffer | hexplorer/main.py:379-380 | for every base, the random scheme's Tetradic 1 and Tetradic 2 both differ from those `generate_scheme` gives for the same base |
| ColorMath.ExportFilenameInjective | hexplorer/main.py:216 | distinct codes are exported to distinct `hexplorer_<hex>.json` files |
| Session.ParseCommand | hexplorer/main.py:454-510 | a recognised line is exactly the word of its command; an unknown line matches no command word |
| Session.ParseToken | hexplorer/main.py:454-510 | every command word selects its own command |
| Session.LStripHash | hexplorer/main.py:459 | `lstrip("#")` leaves a suffix that does not start with `#`, and removes only `#` characters |
| Session.StepCount | hexplorer/main.py:491-492 | the step count is 5 unless the answer is all digits; a digit answer without leading zeros is exactly `str` of the count, so it reappears unchanged in the gradient's file name |
| Session.MixIndexOperand | hexplorer/main.py:485 | the operand of `mixi` can be read by `hex_to_rgb` and is upper-case hexadecimal with the typed index as its value: the index's code when the index is in range, and more than six digits with no leading zero above it |
| Session.MixIndexPastRange | hexplorer/main.py:483-485 | `mixi` with 16777216 formats the seven digits `1000000` and mixes with their leading six, the colour (16, 0, 0) |
| Session.NextIndex | hexplorer/main.py:454-471 | the new `current_dec` after one command, always in range; what each case means is stated by NextPreviousClamp, JumpHexMeaning, JumpIndexMeaning and OtherCommandsKeepIndex, and Move, Explorer.Step and Explorer.Run are stated in terms of it |
| Session.NextPreviousClamp | hexplorer/main.py:454-457 | `n` adds one and stays at MAX_DEC; `p` subtracts one and stays at 0 |
| Session.JumpHexMeaning | hexplorer/main.py:458-463 | `j` with a valid code (leading `#` removed) moves to the index whose code is that code upper-cased; otherwise the index is unchanged |
| Session.JumpIndexMeaning | hexplorer/main.py:464-469 | `i` with digits moves to their value, or to MAX_DEC above the range; otherwise the index is unchanged |
| Session.OtherCommandsKeepIndex | hexplorer/main.py:472-510 | every command other than `n`, `p`, `j`, `i` and `r` leaves the index unchanged |
| Session.CurrentView | hexplorer/main.py:441-449 | each round shows the valid upper-case code of the current index, a valid upper-case code with complemented channels, and the index itself |
| Session.MixCommand | hexplorer/main.py:472-487 | `m`, `mixr` and `mixi` mix the current code with the typed code, the drawn index or the typed index, and refuse an invalid operand |
| Session.GradientCommand | hexplorer/main.py:488-495 | `grad` refuses an invalid code; with a zero step count it divides by zero and the program stops; otherwise it builds the gradient to the upper-cased code with the typed step count (5 by default) |
| Session.Move | hexplorer/main.py:454-471 | the index-moving commands give the next index of the transition, and a move or the refusal of an invalid operand |
| Session.Respond | hexplorer/main.py:472-510 | the other commands produce their mix, gradient, scheme, export, random scheme or message; the loop stops exactly after `q` or a division by zero |
| Session.Explorer.constructor | hexplorer/main.py:439 | the session starts at the given start index |
| Session.Explorer.Step | hexplorer/main.py:441-510 | one round keeps `current` in range, sets it to the transition of the old index, reports what the command produced, and says whether the loop goes on |
| Session.Explorer.Run | hexplorer/main.py:441-510 | running a script gives one result per round, up to and including the first that stops the loop; round k starts at the index the previous round left, moves it by that round's transition and produces that round's response; `current` ends at the replay of the script |
| Session.ReplayStaysPut | hexplorer/main.py:472-510 | a script of commands that do not move the index leaves it where it was |
| Session.ReplayStopsAtQuit | hexplorer/main.py:506-508 | nothing after a `q` runs and the index stays put |
| Session.AskStartHex | hexplorer/main.py:238-243 | the start index is that of the first valid attempt, with every earlier attempt invalid; with no valid attempt there is no start |

## Left out

- Console output: every `print`, the ANSI colour blocks of `print_color_block`, `show_help` and the CLI help and version flags. The model states what each command produces, not how it is shown.
- File I/O: `export_json`, the JSON metadata written by `export_color`, `export_mix` and `export_gradient`, the storage folder, `ensure_termux_storage` and the `.bashrc` patching. Only the export file names are modelled.
- Floating point: `lum_comp`, luminance and contrast in `get_color_metadata` and `show_tech_info`, and the colour-blindness matrices of `simulate_color_blindness`. `cb` is modelled only as the shown-blindness result, and it leaves the index unchanged.
- `webcolors.rgb_to_name`: a library outside this repository, and one that `hexplorer/main.py` never imports. The resulting `NameError` is not caught by `except ValueError` (hexplorer/main.py:169-172), so as written `get_color_metadata` would stop the program on `m`, `mixr`, `mixi`, `grad` and `export`, which all export metadata. The model follows the evident intent: the colour's name is part of the exported metadata, which is not modelled, and these commands go on.
- `random.randint`: each draw is a parameter in `[0, MAX_DEC]`, not modelled randomness.
- `input()`: the command word arrives already stripped and lower-cased, and the prompt answers arrive as strings. `str.strip` on the answers is the caller's.
- Session.Explorer.Run: a script that ends before a `q` stops the replay, where the program would wait for more input.
- Session.AskStartHex: the loop repeats over a finite list of attempts, not forever, and reports no start when none is valid.
- Unicode: `str.isdigit` accepts only the ASCII digits and `str.upper` changes only the ASCII letters. This differs from Python only for input that the validity checks refuse anyway, or for non-ASCII digits typed at the index and step prompts.
- ColorMath.Lerp: the channel is computed as exact `a + ((b - a) * i) // steps`. Python computes `int(a + (b - a) * i / steps)` in double precision. The two agree when `(b - a) * i / steps` is not within rounding error of an integer, which holds for every step count a user types in practice, but the model does not prove it for astronomically large step counts.
- `grad` with the step answer `0` is modelled as the `DivisionByZero` outcome that ends the loop. Python raises `ZeroDivisionError` at `generate_gradient`'s first step.
- `mixi` does not clamp its index, and this is modelled as written: with an index above MAX_DEC, the operand has more than six digits and only its first six are read (Session.MixIndexPastRange). Its export file name then carries the long operand.
- Digit limit of `int`: from CPython 3.11 (and recent patch releases of 3.7 to 3.10), `int` refuses a decimal string of more than 4300 digits with a `ValueError` that nothing catches, so `i`, `mixi` and `grad` with such an answer end the program (hexplorer/main.py:467, 485, 492). The model reads any digit string. The limit depends on the interpreter version, which setup.py allows from 3.6, and on `sys.set_int_max_str_digits`.
- setup.py: packaging metadata, not part of this model.
