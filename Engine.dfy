/** The game engine: a two-state machine that owns the snake, the food, the score, the
    high score, the tick interval and the buffered direction keys. */
module Engine {
  import opened Pieces
  import opened Snakes
  import opened Foods

  datatype GameState = Playing | GameOver

  /** The keys the presentation shell forwards; every other key is `OtherKey`. */
  datatype Key = LeftKey | RightKey | UpKey | DownKey | OtherKey

  /** The four pending-direction flags, one per arrow key, held together so that a tick
      clears them in one step. */
  datatype PendingKeys = PendingKeys(goLeft: bool, goRight: bool, goDown: bool, goUp: bool)

  const NoKeys := PendingKeys(false, false, false, false)

  /** Integer division as C# performs it: the quotient is truncated toward zero. */
  function TruncDiv(a: int, b: int): (q: int)
    requires b > 0
    ensures a >= 0 ==> q * b <= a < q * b + b
    ensures a < 0 ==> q * b - b < a <= q * b
  {
    if a >= 0 then a / b else -((-a) / b)
  }

  /** The largest grid coordinate that fits on a surface `px` pixels wide, `piece` pixels per cell. */
  function GridMax(px: int, piece: int): (m: int)
    requires piece > 0
  {
    TruncDiv(px, piece) - 1
  }

  /** On a surface of non-negative size, a non-negative coordinate is within the grid bound
      exactly when its whole cell is drawn on the surface. */
  lemma CellInsideSurface(px: int, x: int)
    requires px >= 0 && x >= 0
    ensures x <= GridMax(px, PieceWidth) <==> (x + 1) * PieceWidth <= px
  {
  }

  /** The tick's heading as the source resolves it: each pending key, in the order Left,
      Right, Up, Down, is refused only if it reverses the heading as already changed by the
      keys checked before it. The result reverses the tick-start heading exactly when a
      sideways key is accepted first and the reversing key is then checked against it. */
  function ResolveHeadingAsWritten(cur: Direction, goLeft: bool, goRight: bool, goUp: bool, goDown: bool): (r: Direction)
    ensures r == cur || (r == Left && goLeft) || (r == Right && goRight) || (r == Up && goUp) || (r == Down && goDown)
    ensures cur == Up ==> (r == Opposite(cur) <==> goDown && (goLeft || goRight) && !goUp)
    ensures cur == Down ==> (r == Opposite(cur) <==> goUp && (goLeft || goRight))
    ensures cur == Left || cur == Right ==> r != Opposite(cur)
  {
    var afterLeft := if goLeft && cur != Right then Left else cur;
    var afterRight := if goRight && afterLeft != Left then Right else afterLeft;
    var afterUp := if goUp && afterRight != Down then Up else afterRight;
    if goDown && afterUp != Up then Down else afterUp
  }

  /** The resolution the engine uses: the source's rule, except that a key is also refused
      when it reverses the heading the tick started with. This is the source's rule applied
      after discarding the one key that would reverse the snake. */
  function ResolveHeading(cur: Direction, goLeft: bool, goRight: bool, goUp: bool, goDown: bool): (r: Direction)
    ensures r != Opposite(cur)
    ensures r == ResolveHeadingAsWritten(cur, goLeft && cur != Right, goRight && cur != Left,
                                         goUp && cur != Down, goDown && cur != Up)
  {
    var afterLeft := if goLeft && cur != Right then Left else cur;
    var afterRight := if goRight && afterLeft != Left && cur != Left then Right else afterLeft;
    var afterUp := if goUp && afterRight != Down && cur != Down then Up else afterRight;
    if goDown && afterUp != Up && cur != Up then Down else afterUp
  }

  /** The correction changes the source's result only where that result is a reversal. */
  lemma CorrectionOnlyRemovesReversal(cur: Direction, goLeft: bool, goRight: bool, goUp: bool, goDown: bool)
    requires ResolveHeadingAsWritten(cur, goLeft, goRight, goUp, goDown) != Opposite(cur)
    ensures ResolveHeading(cur, goLeft, goRight, goUp, goDown) == ResolveHeadingAsWritten(cur, goLeft, goRight, goUp, goDown)
  {
  }

  /** With one key pending, or none, the two resolutions agree. */
  lemma ResolutionsAgreeOnOneKey(cur: Direction, goLeft: bool, goRight: bool, goUp: bool, goDown: bool)
    requires (if goLeft then 1 else 0) + (if goRight then 1 else 0) + (if goUp then 1 else 0) + (if goDown then 1 else 0) <= 1
    ensures ResolveHeadingAsWritten(cur, goLeft, goRight, goUp, goDown) == ResolveHeading(cur, goLeft, goRight, goUp, goDown)
  {
  }

  /** As written, Left followed by Down turns a snake heading Up straight round. */
  lemma AsWrittenReverses()
    ensures ResolveHeadingAsWritten(Up, true, false, false, true) == Down == Opposite(Up)
    ensures ResolveHeading(Up, true, false, false, true) == Left
  {
  }

  /** As written, that reversal kills a snake of three or more segments whose neck lies behind
      its head: the head moves onto its own neck. */
  lemma AsWrittenReversalCollides(b: seq<GamePiece>)
    requires |b| >= 3 && b[1] == Step(b[0], Opposite(Up))
    ensures SelfCollides(Moved(b, ResolveHeadingAsWritten(Up, true, false, false, true)))
  {
    AsWrittenReverses();
    ReversalCollides(b, Down);
  }

  /** With the resolution the engine uses, the head never moves onto the cell of the neck. */
  lemma HeadAvoidsNeck(b: seq<GamePiece>, cur: Direction, goLeft: bool, goRight: bool, goUp: bool, goDown: bool)
    requires |b| >= 2 && b[1] == Step(b[0], Opposite(cur))
    ensures Moved(b, ResolveHeading(cur, goLeft, goRight, goUp, goDown))[0] != b[1]
  {
  }

  /** The tick interval after one food is eaten: 5 ms shorter, unless already at the floor. */
  function NextSpeed(speed: int): (s: int)
  {
    if speed > MinSpeed then speed - SpeedIncrement else speed
  }

  /** The tick interval of a game in which `eaten` foods have been eaten. */
  function SpeedAfter(eaten: int): (s: int)
  {
    var s := InitialSpeed - SpeedIncrement * eaten;
    if s > MinSpeed then s else MinSpeed
  }

  /** The schedule starts at the initial speed, follows NextSpeed food by food, and never
      leaves [MinSpeed, InitialSpeed]. */
  lemma SpeedSchedule(eaten: int)
    requires eaten >= 0
    ensures SpeedAfter(0) == InitialSpeed
    ensures NextSpeed(SpeedAfter(eaten)) == SpeedAfter(eaten + 1)
    ensures MinSpeed <= SpeedAfter(eaten) <= InitialSpeed
  {
  }

  /** `best` is the largest of the final scores, or 0 while no game has ended. */
  ghost predicate IsBestOf(best: int, finals: seq<int>)
  {
    && best >= 0
    && (forall i :: 0 <= i < |finals| ==> finals[i] <= best)
    && (best == 0 || best in finals)
  }

  /** The high score after the given games have ended, oldest first: it starts at zero and
      moves up only when a final score strictly beats it. */
  function HighScoreAfter(finals: seq<int>): (best: int)
  {
    if finals == [] then 0
    else
      var best := HighScoreAfter(finals[..|finals| - 1]);
      var last := finals[|finals| - 1];
      if last > best then last else best
  }

  /** Ending one more game applies the strict-improvement rule to the running high score. */
  lemma HighScoreAfterAppend(finals: seq<int>, score: int)
    ensures HighScoreAfter(finals + [score])
         == if score > HighScoreAfter(finals) then score else HighScoreAfter(finals)
  {
  }

  /** The running high score is the best final score of all games played (zero before any
      game has beaten zero). */
  lemma {:induction false} HighScoreIsBest(finals: seq<int>)
    ensures IsBestOf(HighScoreAfter(finals), finals)
  {
    if finals != [] {
      var init := finals[..|finals| - 1];
      HighScoreIsBest(init);
      assert finals == init + [finals[|finals| - 1]];
    }
  }

  /** The wall check: outside [0, maxWidth] x [0, maxHeight]. */
  predicate HitsWall(c: GamePiece, maxWidth: int, maxHeight: int)
  {
    c.x < 0 || c.x > maxWidth || c.y < 0 || c.y > maxHeight
  }

  /** A body that ends the game: its head is out of bounds or on a follower. */
  predicate Crashed(b: seq<GamePiece>, maxWidth: int, maxHeight: int)
    requires |b| >= 1
  {
    HitsWall(b[0], maxWidth, maxHeight) || SelfCollides(b)
  }

  /** Food off the snake stays off it after a move unless the head lands on it, and a move
      that ends the game never lands the head on the food. */
  lemma FoodAfterMove(b: seq<GamePiece>, d: Direction, food: GamePiece, maxWidth: int, maxHeight: int)
    requires |b| >= 1 && IsFreeCell(food, maxWidth, maxHeight, b)
    ensures IsFreeCell(food, maxWidth, maxHeight, Moved(b, d)) <==> Step(b[0], d) != food
    ensures Crashed(Moved(b, d), maxWidth, maxHeight) ==> Step(b[0], d) != food
  {
    var m := Moved(b, d);
    if Step(b[0], d) != food {
      forall c | c in m ensures c != food {
        MovedCells(b, d, c);
      }
    }
    if SelfCollides(m) {
      var i :| 1 <= i < |m| && m[i] == m[0];
      assert m[i] == b[i - 1];
    }
  }

  class GameEngine {
    var currentState: GameState
    var score: int
    var highScore: int
    var currentSpeed: int

    var snake: Snake?
    var food: Food?
    const maxWidth: int
    const maxHeight: int

    /** Direction keys pressed since the last tick. */
    var pending: PendingKeys

    /** The score of every game at the moment it ended, oldest first. */
    ghost var finalScores: seq<int>

    ghost predicate Valid()
      reads this, snake, food
    {
      && (snake == null <==> food == null)
      && score >= 0
      && highScore == HighScoreAfter(finalScores)
      && (snake == null ==> currentState == GameOver && score == 0 && currentSpeed == 0)
      && (snake != null ==>
            && snake.Valid()
            && currentSpeed == SpeedAfter(score)
            && snake.body[1] == Step(snake.body[0], Opposite(snake.heading))
            && IsFreeCell(food.position, maxWidth, maxHeight, snake.body)
            && (currentState == Playing ==> !SelfCollides(snake.body)))
    }

    /** The heading this tick settles on. */
    ghost function TickHeading(): (d: Direction)
      reads this, snake
      requires snake != null
    {
      ResolveHeading(snake.heading, pending.goLeft, pending.goRight, pending.goUp, pending.goDown)
    }

    /** The body this tick leaves if nothing stops it. */
    ghost function MovedThisTick(): (m: seq<GamePiece>)
      reads this, snake
      requires snake != null && |snake.body| >= 1
    {
      Moved(snake.body, TickHeading())
    }

    /** If this tick eats the food, the food can be put back somewhere: the placement loop
        would otherwise never end. */
    ghost predicate FoodReplaceable()
      reads this, snake, food
      requires Valid()
    {
      currentState == Playing ==>
        var moved := MovedThisTick();
        !Crashed(moved, maxWidth, maxHeight) && moved[0] == food.position ==>
          exists c :: IsFreeCell(c, maxWidth, maxHeight, Grown(moved))
    }

    /** The grid bounds come from the surface size in pixels; the engine starts inert. */
    constructor (picBoxWidth: int, picBoxHeight: int)
      ensures Valid()
      ensures maxWidth == GridMax(picBoxWidth, PieceWidth) && maxHeight == GridMax(picBoxHeight, PieceHeight)
      ensures currentState == GameOver
      ensures score == 0 && highScore == 0 && currentSpeed == 0
      ensures snake == null && food == null
      ensures pending == NoKeys
      ensures finalScores == []
    {
      maxWidth := TruncDiv(picBoxWidth, PieceWidth) - 1;
      maxHeight := TruncDiv(picBoxHeight, PieceHeight) - 1;
      currentState := GameOver;
      score, highScore, currentSpeed := 0, 0, 0;
      snake, food := null, null;
      pending := NoKeys;
      finalScores := [];
    }

    /** Starts a new game with a fresh snake and freshly placed food; the high score is kept. */
    method StartGame()
      requires Valid()
      requires exists c :: IsFreeCell(c, maxWidth, maxHeight, InitialBody())
      modifies this
      ensures Valid()
      ensures currentState == Playing
      ensures score == 0 && currentSpeed == InitialSpeed
      ensures pending == NoKeys
      ensures fresh(snake) && fresh(food)
      ensures snake.body == InitialBody() && snake.heading == Right
      ensures IsFreeCell(food.position, maxWidth, maxHeight, snake.body)
      ensures highScore == old(highScore) && finalScores == old(finalScores)
    {
      score := 0;
      currentSpeed := InitialSpeed;
      pending := NoKeys;

      var s := new Snake();
      var f := new Food();
      assert s.body == InitialBody();
      f.Generate(maxWidth, maxHeight, s.body);
      snake, food := s, f;

      currentState := Playing;
      InitialBodySound();
      assert snake.Valid();
      assert SpeedAfter(score) == InitialSpeed;
    }

    /** One tick: settle the heading, move, then check the walls, the body and the food. */
    method Update()
      requires Valid() && FoodReplaceable()
      modifies this`currentState, this`score, this`highScore, this`currentSpeed, this`finalScores
      modifies this`pending, snake, food
      ensures Valid()
      ensures old(currentState) == GameOver ==>
        unchanged(this) && (snake != null ==> unchanged(snake) && unchanged(food))
      ensures old(currentState) == Playing ==>
        && snake.heading == old(TickHeading())
        && snake.heading != Opposite(old(snake.heading))
        && pending == NoKeys
        && currentState == (if Crashed(old(MovedThisTick()), maxWidth, maxHeight) then GameOver else Playing)
      ensures old(currentState) == Playing && Crashed(old(MovedThisTick()), maxWidth, maxHeight) ==>
        && snake.body == old(MovedThisTick())
        && score == old(score) && currentSpeed == old(currentSpeed)
        && highScore == (if old(score) > old(highScore) then old(score) else old(highScore))
        && finalScores == old(finalScores) + [old(score)]
        && food.position == old(food.position)
      ensures old(currentState) == Playing && !Crashed(old(MovedThisTick()), maxWidth, maxHeight) ==>
        && highScore == old(highScore) && finalScores == old(finalScores)
        && if old(MovedThisTick())[0] == old(food.position) then
             && snake.body == Grown(old(MovedThisTick()))
             && score == old(score) + 1
             && currentSpeed == NextSpeed(old(currentSpeed))
             && IsFreeCell(food.position, maxWidth, maxHeight, snake.body)
           else
             && snake.body == old(MovedThisTick())
             && score == old(score) && currentSpeed == old(currentSpeed)
             && food.position == old(food.position)
    {
      if currentState != Playing {
        return;
      }

      ghost var moved := MovedThisTick();
      ghost var oldBody := snake.body;
      ghost var roomForFood := !Crashed(moved, maxWidth, maxHeight) && moved[0] == food.position ==>
        exists c :: IsFreeCell(c, maxWidth, maxHeight, Grown(moved));
      assert roomForFood;
      snake.heading := ResolveHeading(snake.heading, pending.goLeft, pending.goRight, pending.goUp, pending.goDown);

      pending := NoKeys;

      snake.Move();
      assert snake.body == moved;
      MovedNeck(oldBody, snake.heading);
      FoodAfterMove(oldBody, snake.heading, food.position, maxWidth, maxHeight);

      var head := snake.body[0];
      if head.x < 0 || head.x > maxWidth || head.y < 0 || head.y > maxHeight {
        assert IsFreeCell(food.position, maxWidth, maxHeight, snake.body);
        SetGameOver();
        HighScoreAfterAppend(old(finalScores), old(score));
        return;
      }

      var collided := snake.CheckSelfCollision();
      if collided {
        assert IsFreeCell(food.position, maxWidth, maxHeight, snake.body);
        SetGameOver();
        HighScoreAfterAppend(old(finalScores), old(score));
        return;
      }
      assert !Crashed(moved, maxWidth, maxHeight);

      if head == food.position {
        assert roomForFood && snake.body == moved;
        EatFood();
        GrownCollides(moved);
        SpeedSchedule(score - 1);
      }
    }

    /** The food was reached: one more point, one more segment, new food, a faster tick. */
    method EatFood()
      requires snake != null && food != null && snake.Valid()
      requires exists c :: IsFreeCell(c, maxWidth, maxHeight, Grown(snake.body))
      modifies this`score, this`currentSpeed, snake, food
      ensures score == old(score) + 1
      ensures snake.Valid() && snake.body == Grown(old(snake.body)) && snake.heading == old(snake.heading)
      ensures IsFreeCell(food.position, maxWidth, maxHeight, snake.body)
      ensures currentSpeed == NextSpeed(old(currentSpeed))
    {
      score := score + 1;
      snake.Grow();
      food.Generate(maxWidth, maxHeight, snake.body);

      if currentSpeed > MinSpeed {
        currentSpeed := currentSpeed - SpeedIncrement;
      }
    }

    /** Ends the game; the high score moves up only when strictly beaten. */
    method SetGameOver()
      modifies this`currentState, this`highScore, this`finalScores
      ensures currentState == GameOver
      ensures highScore == if score > old(highScore) then score else old(highScore)
      ensures finalScores == old(finalScores) + [score]
    {
      currentState := GameOver;
      if score > highScore {
        highScore := score;
      }
      finalScores := finalScores + [score];
    }

    /** Records a direction key; it takes effect at the next tick. */
    method KeyDown(key: Key)
      modifies this`pending
      ensures pending.goLeft == (old(pending.goLeft) || key == LeftKey)
      ensures pending.goRight == (old(pending.goRight) || key == RightKey)
      ensures pending.goUp == (old(pending.goUp) || key == UpKey)
      ensures pending.goDown == (old(pending.goDown) || key == DownKey)
    {
      if key == LeftKey { pending := pending.(goLeft := true); }
      if key == RightKey { pending := pending.(goRight := true); }
      if key == UpKey { pending := pending.(goUp := true); }
      if key == DownKey { pending := pending.(goDown := true); }
    }
  }

  /** A snake shorter than the food's spawn area by more than one segment always leaves the
      food a cell to go to. */
  lemma RoomToGrow(e: GameEngine)
    requires e.Valid()
    requires e.maxWidth > 2 && e.maxHeight > 2
    requires e.snake != null ==> |e.snake.body| + 1 < (e.maxWidth - 2) * (e.maxHeight - 2)
    ensures e.FoodReplaceable()
  {
    if e.currentState == Playing {
      var moved := e.MovedThisTick();
      FreeCellExists(e.maxWidth, e.maxHeight, Grown(moved));
    }
  }

  /** While a game exists the tick interval stays between the floor and the starting speed. */
  lemma SpeedStaysInRange(e: GameEngine)
    requires e.Valid() && e.snake != null
    ensures MinSpeed <= e.currentSpeed <= InitialSpeed
  {
  }

  /** The engine's high score is always the best final score of the games played so far. */
  lemma HighScoreIsBestOfGames(e: GameEngine)
    requires e.Valid()
    ensures IsBestOf(e.highScore, e.finalScores)
  {
    HighScoreIsBest(e.finalScores);
  }
}
