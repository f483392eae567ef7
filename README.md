# Truth-table pipeline of sigmaSd/Truth-table, in Dafny

The program reads a boolean formula such as `xANDyOR(zANDx)` from a text
entry and shows its truth table in a GTK grid. This project models the part
that computes the table, `parse` and the cell layout of `Pages::fill_grid`
in `src/main.rs`. It does not model the windows.

`parse` works by rewriting text:

1. **Normalisation.** The text is lower-cased and every `' '` is removed.
   Then `and`, `or`, `not`, `et`, `ou` and `non` are rewritten to `&&`, `||`
   and `!`, in that order. In Dafny this is `Parse.Normalize`, built from
   `Text.ToLower` and `Text.Replace`. `Text.Replace` is Rust's `str::replace`:
   it replaces non-overlapping matches, scanning from left to right.
2. **Variables.** One left-to-right pass collects every `'a'..='z'`
   character through `add_if_not_exists`. `Parse.IsVariableList` states the
   result: no duplicates, only letters of the text, every letter of the text,
   in order of first occurrence. `Parse.VariableListUnique` shows that this
   determines the list.
3. **Assignments.** The program takes the cartesian product of
   `["true", "false"]`, once per variable, from the `permutator` crate.
   `Assignments.Product(n)` gives the order it yields, entry k being
   `Assignments.Assignment(n, k)`. The lemmas show:
   - there are 2^n assignments, each over "true"/"false";
   - they are in strictly increasing lexicographic order, so they are
     pairwise distinct;
   - every assignment occurs;
   - the k-th is k in binary, with 0 shown as "true";
   - the first is all "true" and the last is all "false".
4. **Substitution.** For each assignment, every variable in turn is replaced
   by its value (`Parse.Substitute`). Then `0`/`1` are replaced by
   `false`/`true` (`Parse.DigitsToWords`), and the text is handed to
   `eval`. The substitution is textual, exactly as in the program. A later
   variable letter that occurs in "true" or "false" also rewrites the values
   substituted before it. `Parse.SubstituteAllCorrupts` shows one case.
   `Parse.SubstituteAllRemovesVariables` shows when this cannot happen.
5. **Display.** `Grid.FillGrid` shows the results in reverse order, one
   row each. Inputs are shown as `1`/`0`, and the output (trimmed) goes in
   column `labels.len()`. A cell that reaches `unreachable!()` makes the
   result `None`.

`eval` lives in `src/eval.rs`, which is not part of this model. `Parse.Parse`
takes it as a parameter `eval: string -> string` and states each result in
terms of it.

## Model

| member | source | states |
|---|---|---|
| `Text.ToLower` | src/main.rs:151 | the result has the input's length and no upper-case ASCII letter; each upper-case letter becomes the lower-case letter at the same place in the alphabet, and every other character is unchanged |
| `Text.Replace` | src/main.rs:151-160 | `str::replace`, used again at lines 189, 194 and 200. Its properties are stated by `ReplaceChars`, `ReplaceRemovesChar`, `ReplaceKeepsCharAbsent`, `ReplaceCharConcat`, `ReplaceAbsent`, `ReplaceRemovesWord` and `ReplaceCreatesNoWord` |
| `Text.ReplaceChars` | src/main.rs:151-160 | every character of a `replace` result comes from the input or from the replacement text |
| `Text.ReplaceRemovesChar` | src/main.rs:151 | replacing a character by text that lacks it (`' '` by `""`, `'0'` by `"false"`) leaves no such character |
| `Text.ReplaceKeepsCharAbsent` | src/main.rs:194 | a character in neither the input nor the replacement is not in the result |
| `Text.ReplaceCharConcat` | src/main.rs:186-198 | a one-character pattern cannot straddle two parts of a text, so `replace` rewrites each part on its own |
| `Text.ReplaceAbsent` | src/main.rs:189 | `replace` returns its input unchanged when the pattern does not occur |
| `Text.ReplaceLetterPrefix` | src/main.rs:153-160 | with a non-empty, letter-free replacement, a leading run of letters in the result was copied from the head of the input |
| `Text.ReplaceRemovesWord` | src/main.rs:153-160 | rewriting a lower-case keyword to a non-empty, letter-free operator leaves no occurrence of the keyword |
| `Text.ReplaceCreatesNoWord` | src/main.rs:153-160 | such a rewrite creates no new occurrence of any lower-case word |
| `Text.TrimStart` | src/main.rs:136 | the result is a suffix of the input that does not start with whitespace, and only whitespace was dropped |
| `Text.TrimEnd` | src/main.rs:136 | the result is a prefix of the input that does not end with whitespace, and only whitespace was dropped |
| `Text.Trim` | src/main.rs:136 | `str::trim`: the result is the middle slice of the input, starting where `TrimStart` starts; everything before and after it is whitespace, and the result has no whitespace at either end |
| `Text.TrimUnchanged` | src/main.rs:136 | a string without whitespace at either end, such as "true", trims to itself |
| `Parse.ReplaceExtendsContainsNone` | src/main.rs:153-160 | one keyword rewrite removes its keyword and brings back none of the keywords removed before it |
| `Parse.Normalize` | src/main.rs:149-161 | the normalisation block; `NormalizeRemovesKeywords` and `NormalizeSqueezes` state what it guarantees |
| `Parse.NormalizeRemovesKeywords` | src/main.rs:149-161 | the normalised text contains none of `and`, `or`, `not`, `et`, `ou`, `non` |
| `Parse.NormalizeSqueezes` | src/main.rs:149-161 | the normalised text contains no `' '` and no upper-case ASCII letter |
| `Parse.AddIfNotExists` | src/main.rs:15-21 | the vector is unchanged if `e` is present, else `e` is appended; afterwards `e` is present, nothing else was added, and a duplicate-free vector stays duplicate-free |
| `Parse.FirstIndex` | src/main.rs:166-170 | the position of the first occurrence of a character: it holds the character and nothing before it does |
| `Parse.FindVariables` | src/main.rs:162-170 | the collected variables are duplicate-free lower-case letters of the text, include every lower-case letter of the text, and are in order of first occurrence |
| `Parse.VariableListsAgree` | src/main.rs:162-170 | two lists that satisfy the variable-list property agree position by position, and the first is at least as long |
| `Parse.VariableListUnique` | src/main.rs:162-170 | the variable-list property determines the list: any two lists that satisfy it are equal |
| `Parse.EvaluateRows` | src/main.rs:186-198 | one row per enumerated assignment, in order: the assignment itself and `eval` of the text with that assignment substituted and the digits rewritten |
| `Parse.SubstituteAll` | src/main.rs:186-191 | the text after replacing each variable in turn by its value; `Substitute` shows the loop computes it, `SubstituteAllRemovesVariables` and `SubstituteAllCorrupts` say when variables are removed and when earlier values are rewritten |
| `Parse.Substitute` | src/main.rs:186-191 | the `while counter < vars.len()` loop yields the text with each variable replaced by its value, one after another, in variable order |
| `Parse.SubstituteAllRemovesVariables` | src/main.rs:186-191 | when no variable letter occurs in any value, no variable letter is left after the substitution |
| `Parse.SubstituteAllCorrupts` | src/main.rs:186-191 | substituting "true" for `x` and then for `e` also rewrites the `e` inside the "true" written for `x` |
| `Parse.DigitsToWords` | src/main.rs:194 | the text handed to `eval` contains neither `'0'` nor `'1'` |
| `Parse.Parse` | src/main.rs:148-207 | `vars` is the variable list of the normalised text. With no variables there is exactly one row, with an empty assignment, evaluated on the normalised text after the `0`/`1` rewrite. Otherwise there are 2^n rows; row i holds the i-th enumerated assignment and `eval` of the substituted, rewritten text. Every assignment has one "true"/"false" entry per variable |
| `Assignments.Assignment` | src/main.rs:177-183 | the k-th enumerated assignment has one entry per variable, each "true" or "false" |
| `Assignments.Product` | src/main.rs:173-183 | the enumeration has 2^n assignments, each with one "true"/"false" entry per variable |
| `Assignments.ProductIsBinaryCount` | src/main.rs:177-183 | entry j of the k-th assignment is "false" exactly when binary digit n-1-j of k is 1: first position slowest, "true" before "false" |
| `Assignments.LexBeforeIrreflexive` | src/main.rs:180-183 | no assignment precedes itself in the enumeration order |
| `Assignments.ProductOrdered` | src/main.rs:180-183 | assignment i comes strictly before assignment j in lexicographic order whenever i < j, so the assignments are pairwise distinct |
| `Assignments.ProductComplete` | src/main.rs:177-183 | every vector of n "true"/"false" entries is enumerated |
| `Assignments.ProductEnds` | src/main.rs:180-183 | the first assignment is n copies of "true" and the last is n copies of "false" |
| `Assignments.ProductOfTwo` | src/main.rs:177-183 | for two variables the assignments are (true, true), (true, false), (false, true), (false, false), in that order |
| `Grid.Digit` | src/main.rs:124-127 | the `match` from a boolean string to its digit, also used for the output at lines 136-140: defined exactly for "true" and "false", and the digit is "1" exactly for "true", else "0" |
| `Grid.InputDigits` | src/main.rs:122-129 | the input cells are defined exactly when every entry is "true" or "false"; then each shows the digit of its entry |
| `Grid.HeaderRow` | src/main.rs:112-118 | row 0 shows each label in its column and "Output" in column `labels.len()` |
| `Grid.DataRow` | src/main.rs:121-142 | a data row is shown exactly when no cell reaches `unreachable!()`; then it `Shows` the row: the inputs as digits in columns 0.., and the digit of the trimmed output in the last column |
| `Grid.ShowsDisplayable` | src/main.rs:124-140 | a row that is shown reaches neither `unreachable!()` |
| `Grid.FillGrid` | src/main.rs:111-146 | the grid is shown exactly when no cell reaches `unreachable!()`. It has a header row and one row per result. Data row r `Shows` `values[len(values) - r]`, so the rows are reversed: its inputs as digits and the digit of its trimmed output in column `labels.len()` |
| `Grid.ParsedInputsDisplay` | src/main.rs:124-128 | for rows whose assignments are all "true"/"false", as `parse` produces, the `unreachable!()` of the input cells is never reached |
| `Grid.InputDigitsOfConstant` | src/main.rs:122-129 | n copies of "true" (or "false") are shown as n copies of its digit |
| `Grid.DisplayedEnds` | src/main.rs:120-129 | the input cells of the last assignment are n copies of "0", and those of the first assignment are n copies of "1"; since `fill_grid` lists the rows in reverse, these are its first and last data rows |

## Left out

- The GTK window, entry, grid and callback wiring (src/main.rs:1-4, 22-109, 209-216). This includes the `grid.attach` and `show_all` calls. `Grid.FillGrid` returns the cell texts as rows instead.
- The bold markup `label_with_markup` wraps around each cell text. A cell is modelled by its plain text.
- `eval` (`src/eval.rs`) is foreign code and a parameter here. Whether the grid shows depends on `eval` returning "true" or "false", possibly surrounded by whitespace. `Grid.FillGrid` states that condition as `Displayable`. It is not proved about `eval`.
- The internals of the `permutator` crate. Its `cart_prod` output is specified by `Assignments.Product`, not modelled step by step.
- `Text.ToLower`: lower-cases only ASCII `A`-`Z`. Rust's `to_lowercase` also folds non-ASCII characters, which is not modelled. Some of them fold to ASCII letters: U+212A KELVIN SIGN becomes `'k'`, and U+0130 becomes `"i\u{307}"`, which is two characters long. On such input the program finds variables that `Parse.Parse` does not, and the length of the text can change. The model covers text whose upper-case letters are all ASCII.
- `add_if_not_exists` changes a `Vec` in place. `Parse.AddIfNotExists` takes the vector as a value and returns the new one. There is no aliasing here for this to lose.
- `Grid.FillGrid` requires every assignment to have one entry per label, which `parse` guarantees. A longer assignment would put an input in the output's column, and a shorter one would leave cells empty. `parse` produces neither, and a table of rows does not represent them.
- The `as i32` casts of row and column numbers in `fill_grid`. They cannot overflow, because there are at most 26 variables and so at most 2^26 rows.
- A panic at `unreachable!()` is modelled as the result `None`. The cells attached before the panic are not modelled.
- `parse` removes only `' '`, not tabs or other whitespace. It builds no parse tree: the rewritten text goes to `eval` as it is.
