/** The `/api/create-puzzle/<image_index>` route: check the index, then build the puzzle. */
module Routes {
  import opened Wrappers
  import opened Imaging
  import DataUri
  import SeedImages
  import Puzzle

  /** The grid size the route always asks for. */
  const RouteGridSize: int := 6

  const InvalidSelection: string := "Invalid image selection"

  /** The JSON body: `success: True` with the puzzle and image name, or `success: False` with an error. */
  datatype Response =
    | Success(puzzle: Puzzle.PuzzleData, imageName: string)
    | Failure(error: string)

  /** Which indices the route accepts. */
  predicate ValidIndex(seedImages: seq<SeedImages.SeedImage>, imageIndex: int) {
    0 <= imageIndex < |seedImages|
  }

  /**
   * `create_puzzle(image_index)`: an index outside the seed list, or a seed
   * whose data does not decode, answers with the error; otherwise the
   * puzzle has 36 pieces and carries the seed's name.
   */
  method CreatePuzzle(seedImages: seq<SeedImages.SeedImage>, imageIndex: int,
                      decode: string -> Option<Image>, png: Image -> string, randbelow: nat -> nat)
    returns (response: Response)
    ensures response.Success? <==>
      ValidIndex(seedImages, imageIndex) && decode(DataUri.Strip(seedImages[imageIndex].data)).Some?
    ensures response.Failure? ==> response.error == InvalidSelection
    ensures response.Success? ==>
      && response.imageName == seedImages[imageIndex].name
      && response.puzzle.gridSize == RouteGridSize
      && response.puzzle.totalPieces == |response.puzzle.pieces| == 36
      && response.puzzle.originalImage == DataUri.Wrap(png(decode(DataUri.Strip(seedImages[imageIndex].data)).value))
  {
    if 0 <= imageIndex < |seedImages| {
      var selectedImage := seedImages[imageIndex];
      var puzzleData, pieces := Puzzle.CreatePuzzlePieces(selectedImage.data, RouteGridSize, decode, png, randbelow);
      if puzzleData.Some? {
        Puzzle.LayoutCount(RouteGridSize);
        assert |multiset(puzzleData.value.pieces)| == |multiset(pieces)|;
        return Success(puzzleData.value, selectedImage.name);
      }
    }
    return Failure(InvalidSelection);
  }

  /**
   * For the generator's own seed list, the stripped data is the picture's
   * own PNG text, so a seed fails only when that text does not decode.
   */
  lemma SeedSelectionDecodes(listing: Option<seq<string>>, load: string -> Option<Image>, png: Image -> string,
                             decode: string -> Option<Image>, imageIndex: int)
    requires forall img :: DataUri.IsBase64(png(img))
    requires ValidIndex(SeedImages.SeedImagesOf(listing, load, png), imageIndex)
    ensures var seed := SeedImages.SeedImagesOf(listing, load, png)[imageIndex];
      decode(DataUri.Strip(seed.data)) == decode(png(seed.image))
  {
    SeedImages.SeedDataStrips(listing, load, png, imageIndex);
  }
}
