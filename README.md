# Jigsaw puzzle generator (rompe) in Dafny

This project models the puzzle bookkeeping of the `JigsawGenerator` class
in `app.py` of a small Flask jigsaw-puzzle server. The server turns a seed
picture into an N×N grid of pieces, shuffles them, and sends them to the
browser. Images are opaque handles. Only crop boxes, piece records, list
order and the strings the code builds are modelled.

Modules, in dependency order:

- `Wrappers`: the `Option` used for `None` returns.
- `Strings`: the Python string built-ins the code calls: `endswith` with a
  tuple of suffixes, `replace`, `lower`, `title`, and `sorted` on strings
  (`StartsWith` only serves `replace`). Case mapping covers ASCII letters only.
- `Imaging`: the 400-pixel working size, PIL crop boxes (`Rect`) and opaque images.
- `DataUri`: the `data:image/png;base64,` header that `image_to_base64` adds
  and that `create_puzzle_pieces` removes with `replace`.
- `SeedImages`: `generate_seed_images`. It filters the folder listing by
  extension, visits the files in sorted order, skips files that fail to load,
  turns each file name into a display name, and uses a placeholder when the
  folder is missing.
- `Puzzle`: `create_puzzle_pieces`. This covers the row-major partition
  loop, the shallow copy and `random.shuffle`, and the loop that writes
  `current_position`. A piece dictionary is the class `Piece`. Both lists
  hold the same dictionaries, so the position loop also numbers the pieces
  of the unshuffled list. `Layout` is the reference definition of the
  partition.
- `Routes`: the index guard of the `/api/create-puzzle/<image_index>` route.

External effects are parameters:

- `listing`: the `os.listdir` result, or `None` when the folder does not exist.
- `load`: opening, converting and resizing one file.
- `decode`: `b64decode`, `Image.open` and `resize` together.
- `png`: saving a picture as PNG and base64-encoding it.
- `randbelow`: the shuffle's random draws.

Where `load` or `decode` returns `None`, the source raises an exception.

Behaviour of the code that the model keeps as written:

- The code does not require the grid size to be at least 1 or to divide 400.
  A negative size makes `range` empty, so the result is a puzzle with no pieces.
  In the model only 0 fails, through the division by zero. A size above 400
  gives pieces of size 0 (`Puzzle.PieceSize`); the encoder's exceptions on such
  empty crops are not modelled (see the `Puzzle.CreatePuzzlePieces` line under
  "## Left out").
- Piece size is truncated by floor division. For a grid of 6, pieces are 66
  pixels and a strip of 400 − 396 = 4 pixels is left unused on the right and
  at the bottom (`Puzzle.RouteGridOfSix`, `Puzzle.Margin`).
- When there is no image folder, the code adds one placeholder. When the
  folder exists but holds no image files, or none of them loads, it returns
  an empty list (`SeedImages.NoImagesInFolder`).
- There is no solution-validation endpoint in `app.py`, so none is modelled.

## Model

| member | source | states |
|---|---|---|
| `Strings.EndsWithAny` | app.py:33 | `endswith` with a tuple of suffixes; its meaning is stated by `Strings.EndsWithAnyIff` |
| `Strings.EndsWithAnyIff` | app.py:32-33 | `endswith` with a tuple holds exactly when the text ends with one of the tuple's suffixes |
| `Strings.ToLower` | app.py:33 | lower-casing keeps whether a character is a letter, never yields an upper-case letter, moves an upper-case letter 32 code points up (A to a), and leaves every other character alone |
| `Strings.ToUpper` | app.py:51 | upper-casing keeps whether a character is a letter, never yields a lower-case letter, moves a lower-case letter 32 code points down (a to A), and leaves every other character alone |
| `Strings.Lower` | app.py:33 | `lower()` keeps the length, leaves no upper-case letter, maps each upper-case letter to its lower-case one and keeps every other character in place |
| `Strings.LowerIdempotent` | app.py:33 | lower-casing a lower-cased name changes nothing |
| `Strings.Replace` | app.py:51 | `replace` keeps the length when the replacement is as long as the pattern, and never lengthens the text when it is shorter |
| `Strings.ReplaceAbsent` | app.py:93 | `replace` leaves a text unchanged when the text lacks one of the pattern's characters |
| `Strings.ReplaceCharAt` | app.py:51 | replacing one character by another keeps the length and maps each position independently |
| `Strings.TitleFrom` | app.py:51 | the left-to-right `title()` scan that remembers whether the previous character was a letter; it keeps the length, and `Strings.TitleFromAt` states its rule |
| `Strings.TitleFromAt` | app.py:51 | the left-to-right `title()` scan puts at position k the lower-cased character if the previous character was a letter, else the upper-cased one |
| `Strings.Title` | app.py:51 | `title()` keeps the length |
| `Strings.TitleAt` | app.py:51 | `title()` upper-cases a letter at the start or after a non-letter, lower-cases every other letter, keeps non-letters, and keeps the length |
| `Strings.TitleIdempotent` | app.py:51 | title-casing a title-cased name changes nothing |
| `Strings.LexLe` | app.py:36 | Python's code-point string `<=` that `sorted` compares with; `Strings.LexLeTotal` and `Strings.Sort` state its use |
| `Strings.LexLeTotal` | app.py:36 | any two names are ordered one way or the other by Python's string comparison |
| `Strings.Insert` | app.py:36 | inserting into a sorted list keeps it sorted and adds exactly that one name |
| `Strings.Sort` | app.py:36 | `sorted` returns a sorted rearrangement of exactly the given names |
| `DataUri.Wrap` | app.py:87 | the f-string that puts the header before the payload; `DataUri.StripWrap` states that stripping undoes it |
| `DataUri.Strip` | app.py:93 | removing the header never lengthens the text |
| `DataUri.StripWrap` | app.py:87-93 | removing the header with `replace` from a wrapped base64 payload gives back the payload |
| `DataUri.StripWithoutHeader` | app.py:93 | text with no `:` passes through the header removal unchanged |
| `SeedImages.IsImageFile` | app.py:32-33 | the filter's test, `endswith` of the lower-cased name with the five-suffix tuple; its meaning is stated by `SeedImages.IsImageFileIff` |
| `SeedImages.IsImageFileIff` | app.py:32-33 | a file is accepted iff its lower-cased name ends in `.png`, `.jpg`, `.jpeg`, `.gif` or `.bmp` |
| `SeedImages.ImageFiles` | app.py:32-33 | the comprehension keeps each accepted name as often as it is listed and drops the rest |
| `SeedImages.RFind` | app.py:51 | `rfind` gives an index holding the character with none after it, or -1 when the character is absent |
| `SeedImages.Stem` | app.py:51 | `splitext(f)[0]` of a bare name: cut at the last dot unless only dots come before it; stated by the three `Stem…` lemmas below |
| `SeedImages.DotAt` | app.py:33-51 | within the suffix a lower-cased name ends in, the name has a dot exactly where the suffix has one |
| `SeedImages.LastDotOfSuffix` | app.py:51 | when the lower-cased name ends in a suffix whose only dot is its first character, `rfind('.')` finds that dot |
| `SeedImages.ExtensionIsDotSuffix` | app.py:33 | each of the five accepted suffixes has a dot as its first and only dot |
| `SeedImages.LastDotOfImageFile` | app.py:33-51 | in an accepted file name the last dot is the one that starts the accepted suffix |
| `SeedImages.StemOfImageFile` | app.py:51 | `splitext` of an accepted file with something other than dots before the suffix cuts off exactly that suffix |
| `SeedImages.StemOfDotOnlyImageFile` | app.py:51 | `splitext` of an accepted file with only dots (or nothing) before the suffix keeps the whole name, so ".png" and "..png" are shown as the title-cased whole name (".Png", "..Png") |
| `SeedImages.StemOfDotName` | app.py:51 | examples: ".png" and "..png" stay whole, "my.photo.png" is cut to "my.photo" |
| `SeedImages.DisplayName` | app.py:51 | the display name is as long as the stem |
| `SeedImages.DisplayNameAt` | app.py:51 | the display name has the stem's length and shows every `-` and `_` as a space; it keeps other non-letters; a letter is upper-cased at the start or after a non-letter (a separator counts as one) and lower-cased after a letter; no `-` or `_` is left |
| `SeedImages.DisplayNameExample` | app.py:32-51 | "my-cat.PNG" is accepted and is shown as "My Cat" |
| `SeedImages.ReplacedExample` | app.py:51 | the two replacements turn "my-cat" into "my cat" |
| `SeedImages.TitleExample` | app.py:51 | "my cat" title-cases to "My Cat" |
| `SeedImages.GenerateSeedImages` | app.py:16-79 | the loading loop returns the loaded image files in sorted order, each with its display name and data URI, or the single placeholder when the folder is missing |
| `SeedImages.Loaded` | app.py:36-61 | the loop over the sorted files, appending the entry of each file that loads; stated by `LoadedOrder`, `LoadedLength` and `LoadedAll` |
| `SeedImages.SeedImagesOf` | app.py:28-79 | the loaded sorted image files for an existing folder, the placeholder alone for a missing one; stated by `GenerateSeedImages`, `NoImagesInFolder` and `SeedImagesSorted` |
| `SeedImages.LoadedFrom` | app.py:36-61 | every entry is the entry of a file that loaded, found at or after the entry's own position |
| `SeedImages.LoadedOrder` | app.py:36-61 | entry i is the entry of file `LoadedIndices[i]`; these indices strictly increase and take in every file that loads, so the list keeps the files' order and drops exactly the files that fail |
| `SeedImages.LoadedIndicesLength` | app.py:36-61 | there is one position per entry |
| `SeedImages.LoadedIndicesRange` | app.py:36-61 | the positions are those of files that load, strictly increase, and include every file that loads |
| `SeedImages.Entry` | app.py:50-57 | the dictionary appended for a loaded file: display name, image and data URI; `SeedImages.LoadedAt` and `SeedImages.LoadedAll` state which file each entry comes from |
| `SeedImages.LoadedAt` | app.py:36-57 | entry i is the entry of the loadable file at position `LoadedIndices[i]` |
| `SeedImages.LoadedLength` | app.py:36-61 | files that fail to load are skipped, so there are never more entries than files, and exactly as many when all files load |
| `SeedImages.LoadedAll` | app.py:36-57 | when every file loads, entry i belongs to file i |
| `SeedImages.SeedImageOrigin` | app.py:32-57 | each entry of an existing folder comes from a listed, accepted, loadable file and carries that file's display name and data |
| `SeedImages.Fallback` | app.py:66-76 | the "Add Your Images" placeholder dictionary; `SeedImages.NoImagesInFolder` states when it is the whole list |
| `SeedImages.NoImagesInFolder` | app.py:28-76 | an existing folder gives an empty list when it holds no image files or when none of its image files loads; a missing folder gives exactly the "Add Your Images" placeholder |
| `SeedImages.NothingLoads` | app.py:36-61 | when no file loads, the loop appends nothing |
| `SeedImages.SeedImagesSorted` | app.py:32-57 | when every accepted file loads, entry i carries the display name of the i-th accepted file in sorted order |
| `SeedImages.SeedDataStrips` | app.py:56-93 | the header removal applied to any seed's data gives back that picture's base64 PNG text |
| `Puzzle.FloorDiv` | app.py:101 | `//` rounds towards minus infinity for either sign of the divisor |
| `Puzzle.PieceSize` | app.py:101 | for a positive N, N pieces of the size fit in 400 pixels and N pieces one pixel wider do not; a grid above 400 gets pieces of size 0 |
| `Puzzle.CellAt` | app.py:103-123 | the cell at (row, col) records that row and column, has `id == correct_position`, and its box is a square of the piece size |
| `Puzzle.Layout` | app.py:103-123 | the reference definition of the partition: `CellAt` for every k below N², at row k // N and column k % N; stated by the `Layout…` and `Cell…` lemmas below |
| `Puzzle.PieceCount` | app.py:137 | `len(pieces)`; `Puzzle.LayoutCount` states that it is N² for a positive N and 0 otherwise |
| `Puzzle.LayoutCount` | app.py:103-104 | there are N² cells for a positive N and none for a negative N |
| `Puzzle.LayoutCell` | app.py:103-123 | cell k has `id == correct_position == k == row*N + col` with `0 <= row, col < N` |
| `Puzzle.LayoutRowMajor` | app.py:103-104 | cells come row by row, and left to right within a row |
| `Puzzle.LayoutIds` | app.py:117-123 | the ids are exactly 0 … N²−1 in order, and no two cells share one |
| `Puzzle.LayoutBox` | app.py:101-109 | cell k's box is `(col*s, row*s, col*s+s, row*s+s)` with `s = 400 // N`, and `N*s <= 400` |
| `Puzzle.CellInside` | app.py:101-112 | every box is an `s`×`s` square inside the 400×400 image |
| `Puzzle.CellsDisjoint` | app.py:106-112 | boxes of different pieces share no pixel |
| `Puzzle.Margin` | app.py:101 | the strip left over on the right and bottom is `400 % N` pixels wide, less than N |
| `Puzzle.Coverage` | app.py:101-112 | a pixel is covered by some box iff both its coordinates are below `N * (400 // N)`, so the margin strips are never covered |
| `Puzzle.RouteGridOfSix` | app.py:101-163 | with the route's grid of 6 there are 36 pieces of 66 pixels and a 4-pixel margin |
| `Puzzle.Piece.constructor` | app.py:117-123 | a new piece dictionary holds the given id, row, column, data and correct position, and has no current position yet |
| `Puzzle.Partition` | app.py:100-123 | the nested loops produce one new, distinct piece per cell of `Layout`, in row-major order, each holding the data URI of its crop |
| `Puzzle.PermutationDistinct` | app.py:126-127 | rearranging distinct pieces keeps them distinct |
| `Puzzle.Shuffle` | app.py:127 | `random.shuffle` (swapping from the back with draws below i+1) leaves a rearrangement of the same elements |
| `Puzzle.AssignPositions` | app.py:130-131 | after the position loop, the piece at index i of the shuffled list has `current_position == i` |
| `Puzzle.OriginalPositions` | app.py:126-131 | through the shared dictionaries, each piece of the unshuffled list ends up with the index at which the shuffled list holds it |
| `Puzzle.PermutedPositions` | app.py:126-127 | rearranging pieces rearranges their `correct_position` values the same way |
| `Puzzle.ShuffledPositions` | app.py:117-131 | the `correct_position` values of the shuffled pieces are exactly 0 … N²−1, each once |
| `Puzzle.CreatePuzzlePieces` | app.py:89-142 | the result is `None` exactly when decoding fails or N = 0. Otherwise the unshuffled list matches `Layout` in row-major order, the returned list is a rearrangement of it with positions 0 … n−1, `correct_position` values 0 … N²−1 each once, `total_pieces` equal to the count, and the original image's data URI |
| `Routes.ValidIndex` | app.py:161 | the route's guard `0 <= image_index < len(seed_images)`; `Routes.CreatePuzzle` states that success needs it |
| `Routes.CreatePuzzle` | app.py:158-172 | the route succeeds iff `0 <= image_index < len(seed_images)` and the seed decodes. Success carries the seed's name and a 36-piece puzzle of grid size 6; failure carries "Invalid image selection" |
| `Routes.SeedSelectionDecodes` | app.py:161-163 | for the generator's own seeds, the route decodes exactly the picture's own PNG text |

## Left out

- Flask setup, CORS, `render_template`, `jsonify` and the `/api/seed-images` listing route: HTTP plumbing. The route's JSON body is the datatype `Routes.Response`.
- Flask's `<int:...>` converter only matches non-negative numbers, so a negative index never reaches the guard. The model keeps the guard as the code writes it, for every integer.
- PIL: `Image.open`, `convert('RGB')`, the LANCZOS `resize`, the pixels of `crop`, PNG `save`, and the `ImageDraw` placeholder drawing. These are foreign library calls, so images are opaque handles and the calls are parameters.
- `base64.b64encode`/`b64decode`: a library codec. Payloads are opaque strings, and data-URI lemmas assume the encoder yields base64-alphabet text.
- `Puzzle.CreatePuzzlePieces`: exceptions that `png` could raise while encoding a crop (for example PIL refusing to save the empty crops of a grid larger than 400) are not modelled, because the encoder is a total function.
- `Puzzle.Shuffle`: only "a rearrangement of the same elements" is stated. That every order is reachable, and uniformity of the random source, are not modelled, because the draws are an arbitrary parameter.
- `os.path.exists`, `os.listdir` and all `print` logging: I/O. The listing is a parameter.
- `Strings.ToLower`, `Strings.ToUpper`: Unicode case mapping beyond ASCII is not modelled. Non-ASCII characters count as uncased, so `title()` and `lower()` leave them unchanged. A non-ASCII letter therefore does not count as a letter before the next character either: the model title-cases "élan" to "éLan" and a seed file "naïve.png" to "NaïVe", where Python gives "Élan" and "Naïve". Names are sequences of Unicode scalar values, so names that `os.listdir` returns with surrogate escapes are outside the model.
- `SeedImages.Stem`: models `os.path.splitext` for a bare file name with no directory separator, as `os.listdir` returns. The Windows separators are not modelled.
- The `image` key of the seed dictionaries is kept as the opaque `Image`. The global `puzzle_generator` instance becomes the seed list passed to `Routes.CreatePuzzle`.
- `Puzzle.AssignPositions`: requires the shuffled list to hold each dictionary once. `create_puzzle_pieces` always meets this, and the last write would win otherwise.
