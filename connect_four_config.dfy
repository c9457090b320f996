/**
 * The game's start-up settings (ConnectFourConfig): which seats are played by a
 * human, and how many plies the computer searches.  The difficulty level is not
 * stored; the search depth `level << 1` is, and the level is read back as
 * `depth >> 1`.
 */
module GameConfig {
  import opened Wrappers

  // Game types: who plays the first (RED) seat and who the second (BLACK) seat.
  const HUMAN_HUMAN := 1
  const HUMAN_COMPUTER := 2
  const COMPUTER_HUMAN := 3
  const COMPUTER_COMPUTER := 4

  // Difficulty levels.
  const BEGINNER := 1
  const INTERMEDIATE := 2
  const ADVANCED := 3
  const EXPERT := 4

  /** The two IllegalArgumentExceptions the setters throw, with the rejected value. */
  datatype ConfigError = InvalidGameType(gameType: int) | InvalidDifficulty(difficultyLevel: int)

  predicate ValidGameType(gameType: int) {
    HUMAN_HUMAN <= gameType <= COMPUTER_COMPUTER
  }

  predicate ValidDifficulty(level: int) {
    BEGINNER <= level <= EXPERT
  }

  /**
   * `level << 1`, the search depth stored for a difficulty level.  The shift is
   * only reached for levels 1..4, where a 32-bit int cannot overflow.
   */
  function DepthOfLevel(level: int): (depth: int)
    requires ValidDifficulty(level)
    ensures depth % 2 == 0 && depth in {2, 4, 6, 8}
    ensures LevelOfDepth(depth) == level
  {
    level * 2
  }

  /**
   * `depth >> 1`.  Java's arithmetic shift rounds toward negative infinity, and
   * so does Dafny's division by a positive divisor.
   */
  function LevelOfDepth(depth: int): (level: int)
    ensures 2 * level <= depth <= 2 * level + 1
  {
    depth / 2
  }

  /** The other direction of the round trip: every stored depth comes from exactly one level. */
  lemma DepthDeterminesLevel(depth: int)
    requires depth in {2, 4, 6, 8}
    ensures ValidDifficulty(LevelOfDepth(depth)) && DepthOfLevel(LevelOfDepth(depth)) == depth
  {
  }

  class ConnectFourConfig {
    var gameType: int
    var maxDepth: int

    /** What every object that `Create` hands out satisfies. */
    ghost predicate Valid()
      reads this
    {
      ValidGameType(gameType) && maxDepth in {2, 4, 6, 8}
    }

    /** The object as Java allocates it, before the constructor's body runs: both fields are 0. */
    constructor Blank()
      ensures gameType == 0 && maxDepth == 0
    {
      gameType := 0;
      maxDepth := 0;
    }

    /**
     * `new ConnectFourConfig(gameType, difficultyLevel)`: sets the game type, then
     * the difficulty; an invalid game type throws before the difficulty is looked at.
     */
    static method Create(gameType: int, difficultyLevel: int) returns (r: Result<ConnectFourConfig, ConfigError>)
      ensures r.Success? <==> ValidGameType(gameType) && ValidDifficulty(difficultyLevel)
      ensures !ValidGameType(gameType) ==> r == Failure(InvalidGameType(gameType))
      ensures ValidGameType(gameType) && !ValidDifficulty(difficultyLevel) ==>
                r == Failure(InvalidDifficulty(difficultyLevel))
      ensures r.Success? ==> fresh(r.value) && r.value.Valid()
      ensures r.Success? ==> r.value.GetGameType() == gameType
      ensures r.Success? ==> r.value.GetDifficultyLevel() == difficultyLevel
      ensures r.Success? ==> r.value.GetMaxDepth() == 2 * difficultyLevel
    {
      var config := new ConnectFourConfig.Blank();
      var o := config.SetGameType(gameType);
      if o.Fail? {
        return Failure(o.error);
      }
      o := config.SetDifficulty(difficultyLevel);
      if o.Fail? {
        return Failure(o.error);
      }
      return Success(config);
    }

    /** Accepts a game type in 1..4; anything else throws and changes nothing. */
    method SetGameType(gameType: int) returns (o: Outcome<ConfigError>)
      modifies this
      ensures o == if ValidGameType(gameType) then Pass else Fail(InvalidGameType(gameType))
      ensures this.gameType == if o.Pass? then gameType else old(this.gameType)
      ensures maxDepth == old(maxDepth)
      ensures old(Valid()) ==> Valid()
    {
      if gameType < HUMAN_HUMAN || gameType > COMPUTER_COMPUTER {
        return Fail(InvalidGameType(gameType));
      }
      this.gameType := gameType;
      return Pass;
    }

    function GetGameType(): (g: int)
      reads this
      ensures Valid() ==> ValidGameType(g)
    {
      gameType
    }

    /** The level the stored depth stands for; on a valid object, the one last set. */
    function GetDifficultyLevel(): (level: int)
      reads this
      ensures Valid() ==> ValidDifficulty(level) && DepthOfLevel(level) == maxDepth
    {
      LevelOfDepth(maxDepth)
    }

    /** Accepts a level in 1..4 and stores twice it as the depth; anything else throws and changes nothing. */
    method SetDifficulty(difficultyLevel: int) returns (o: Outcome<ConfigError>)
      modifies this
      ensures o == if ValidDifficulty(difficultyLevel) then Pass else Fail(InvalidDifficulty(difficultyLevel))
      ensures maxDepth == if o.Pass? then 2 * difficultyLevel else old(maxDepth)
      ensures o.Pass? ==> GetDifficultyLevel() == difficultyLevel
      ensures gameType == old(gameType)
      ensures old(Valid()) ==> Valid()
    {
      if difficultyLevel < BEGINNER || difficultyLevel > EXPERT {
        return Fail(InvalidDifficulty(difficultyLevel));
      }
      maxDepth := DepthOfLevel(difficultyLevel);
      return Pass;
    }

    /** The search depth: on a valid object an even number of plies between 2 and 8. */
    function GetMaxDepth(): (depth: int)
      reads this
      ensures Valid() ==> depth % 2 == 0 && 2 <= depth <= 8
    {
      maxDepth
    }
  }
}
