/** ex_3_animal_game.cpp: the engine of an animal-guessing game. Each stored
    question maps animals to their yes/no answer; a game narrows a candidate
    set question by question, guesses, and on a wrong guess learns the new
    animal. Console input is replaced by the parsed yes/no response. */
module AnimalGame {
  import opened StringOrder

  /** `SolutionAnswers`: the responses given so far, one per question asked. */
  datatype SolutionAnswers = SolutionAnswers(answerSet: seq<bool>)
  {
    /** `addResponse`: one more response at the end. */
    function AddResponse(satisfies: bool): (r: SolutionAnswers)
      ensures |r.answerSet| == |answerSet| + 1
      ensures r.answerSet[..|answerSet|] == answerSet
      ensures r.answerSet[|answerSet|] == satisfies
    {
      SolutionAnswers(answerSet + [satisfies])
    }
  }

  /** `Question`: its text and, per animal, whether the animal satisfies it.
      The engine keeps questions by value, so a question is a value here. */
  datatype Question = Question(qStr: string, answerSet: map<string, bool>)
  {
    /** The animals whose stored answer is `querySatisfies`. */
    ghost function Answering(querySatisfies: bool): set<string> {
      set a | a in answerSet && answerSet[a] == querySatisfies
    }

    /** `getAnimalsSatisfying`: walks the map in key order and collects the
        animals whose answer is `querySatisfies`; the result is those animals,
        each once, in ascending order. */
    method GetAnimalsSatisfying(querySatisfies: bool) returns (animals: seq<string>)
      ensures StrictlySorted(animals)
      ensures forall a :: a in animals <==> a in Answering(querySatisfies)
    {
      animals := [];
      var remaining := answerSet.Keys;
      while remaining != {}
        invariant remaining <= answerSet.Keys
        invariant StrictlySorted(animals)
        invariant forall a :: a in animals ==> a in Answering(querySatisfies) && a !in remaining
        invariant forall a :: a in Answering(querySatisfies) && a !in remaining ==> a in animals
        invariant forall a, b :: a in animals && b in remaining ==> LexLess(a, b)
        decreases remaining
      {
        var animal := Least(remaining);
        var satisfies := answerSet[animal];
        if (satisfies && querySatisfies) || (!satisfies && !querySatisfies) {
          animals := animals + [animal];
        }
        remaining := remaining - {animal};
      }
    }

    /** `trimOutInvalidAnimals`: the candidates whose stored answer is
        `querySatisfies`. A candidate this question has no answer for is
        dropped. (The source walks the map in key order; the result is a set,
        so the order does not matter.) */
    method TrimOutInvalidAnimals(candidateAnimalSolns: set<string>, querySatisfies: bool)
      returns (satisfyingAnimals: set<string>)
      ensures satisfyingAnimals == candidateAnimalSolns * Answering(querySatisfies)
      ensures satisfyingAnimals <= candidateAnimalSolns
    {
      satisfyingAnimals := {};
      var remaining := answerSet.Keys;
      while remaining != {}
        invariant remaining <= answerSet.Keys
        invariant satisfyingAnimals == (candidateAnimalSolns * Answering(querySatisfies)) - remaining
        decreases remaining
      {
        var animal :| animal in remaining;
        var satisfies := answerSet[animal];
        if animal in candidateAnimalSolns {
          if (satisfies && querySatisfies) || (!satisfies && !querySatisfies) {
            satisfyingAnimals := satisfyingAnimals + {animal};
          }
        }
        remaining := remaining - {animal};
      }
    }

    /** `addAnswer`: records `satisfies` for `animal`, replacing any earlier
        answer for it; the text and the other animals' answers stay. */
    function AddAnswer(animal: string, satisfies: bool): (r: Question)
      ensures r.qStr == qStr
      ensures r.answerSet.Keys == answerSet.Keys + {animal}
      ensures r.answerSet[animal] == satisfies
      ensures forall a :: a in answerSet && a != animal ==> r.answerSet[a] == answerSet[a]
    {
      Question(qStr, answerSet[animal := satisfies])
    }
  }

  /** Recording an answer puts the animal among those giving that answer and
      takes it out of those giving the other. */
  lemma AddAnswerMovesAnimal(q: Question, animal: string, satisfies: bool)
    ensures q.AddAnswer(animal, satisfies).Answering(satisfies) == q.Answering(satisfies) + {animal}
    ensures q.AddAnswer(animal, satisfies).Answering(!satisfies) == q.Answering(!satisfies) - {animal}
  {
  }

  class AiEngine {
    var questions: seq<Question>
    var allAnimals: set<string>
    var candidateAnimals: set<string>
    var solnAnswers: SolutionAnswers
    var qIdx: int

    /** The candidates are known animals, and `qIdx` indexes a question (it is
        0 while there are none). */
    ghost predicate Valid()
      reads this
    {
      candidateAnimals <= allAnimals &&
      0 <= qIdx && (qIdx == 0 || qIdx < |questions|)
    }

    /** `AiEngine(initAnimals, initQuestions)`: every known animal is a
        candidate, no response is recorded and the first question is next. */
    constructor (initAnimals: set<string>, initQuestions: seq<Question>)
      ensures Valid()
      ensures allAnimals == initAnimals && candidateAnimals == initAnimals
      ensures questions == initQuestions
      ensures solnAnswers == SolutionAnswers([]) && qIdx == 0
    {
      allAnimals := initAnimals;
      candidateAnimals := initAnimals;
      questions := initQuestions;
      solnAnswers := SolutionAnswers([]);
      qIdx := 0;
    }

    /** `reset` as written: every animal is a candidate again and the first
        question is next, but the declaration meant to clear the responses
        declares a new local instead, so the responses of earlier games
        stay. */
    method ResetAsWritten()
      requires Valid()
      modifies this
      ensures Valid()
      ensures candidateAnimals == allAnimals && qIdx == 0
      ensures solnAnswers == old(solnAnswers)
      ensures questions == old(questions) && allAnimals == old(allAnimals)
    {
      candidateAnimals := allAnimals;
      var solnAnswers := SolutionAnswers([]);
      qIdx := 0;
    }

    /** `reset` as evidently intended: also starts a blank set of responses. */
    method Reset()
      requires Valid()
      modifies this
      ensures Valid()
      ensures candidateAnimals == allAnimals && qIdx == 0
      ensures solnAnswers == SolutionAnswers([])
      ensures questions == old(questions) && allAnimals == old(allAnimals)
    {
      candidateAnimals := allAnimals;
      solnAnswers := SolutionAnswers([]);
      qIdx := 0;
    }

    /** `internalizeSoln`: every stored question learns `correctAnimal`'s
        answer from the response at the same index (so there must be a response
        for each question), then a new question that `correctAnimal` alone
        satisfies is added and `correctAnimal` becomes known. */
    method InternalizeSoln(correctAnimal: string, satisfyingQuestion: string)
      requires Valid() && |solnAnswers.answerSet| >= |questions|
      modifies this
      ensures Valid()
      ensures |questions| == old(|questions|) + 1
      ensures forall i :: 0 <= i < old(|questions|) ==>
        questions[i] == old(questions[i]).AddAnswer(correctAnimal, old(solnAnswers.answerSet[i]))
      ensures questions[|questions| - 1] == Question(satisfyingQuestion, map[correctAnimal := true])
      ensures allAnimals == old(allAnimals) + {correctAnimal}
      ensures candidateAnimals == old(candidateAnimals) && solnAnswers == old(solnAnswers)
      ensures qIdx == old(qIdx)
    {
      for i := 0 to |questions|
        invariant |questions| == old(|questions|) && solnAnswers == old(solnAnswers)
        invariant forall j :: 0 <= j < i ==>
          questions[j] == old(questions[j]).AddAnswer(correctAnimal, solnAnswers.answerSet[j])
        invariant forall j :: i <= j < |questions| ==> questions[j] == old(questions[j])
        invariant Valid() && solnAnswers == old(solnAnswers)
        invariant allAnimals == old(allAnimals) && candidateAnimals == old(candidateAnimals)
        invariant qIdx == old(qIdx)
      {
        questions := questions[i := questions[i].AddAnswer(correctAnimal, solnAnswers.answerSet[i])];
      }
      var newQ := Question(satisfyingQuestion, map[]).AddAnswer(correctAnimal, true);
      assert newQ.answerSet == map[correctAnimal := true];
      questions := questions + [newQ];
      allAnimals := allAnimals + {correctAnimal};
    }

    /** `guess`: the first (least) candidate, or the first known animal when no
        candidate is left. The source assumes some animal is known. */
    method Guess() returns (bestAnswer: string)
      requires Valid() && allAnimals != {}
      ensures candidateAnimals != {} ==>
        bestAnswer in candidateAnimals &&
        forall a :: a in candidateAnimals && a != bestAnswer ==> LexLess(bestAnswer, a)
      ensures candidateAnimals == {} ==>
        bestAnswer in allAnimals &&
        forall a :: a in allAnimals && a != bestAnswer ==> LexLess(bestAnswer, a)
    {
      if |candidateAnimals| > 0 {
        bestAnswer := Least(candidateAnimals);
      } else {
        bestAnswer := Least(allAnimals);
      }
    }

    /** `numQuestions`: how many questions the engine knows. */
    function NumQuestions(): (n: int)
      reads this
      ensures n == |questions|
    {
      |questions|
    }

    /** `AskQuestion` after a valid response: records it, keeps only the
        candidates whose answer to the current question matches it, and moves
        to the next question unless the current one is the last. */
    method AskQuestionStep(satisfies: bool)
      requires Valid() && |questions| >= 1
      modifies this
      ensures Valid()
      ensures solnAnswers == old(solnAnswers).AddResponse(satisfies)
      ensures candidateAnimals == old(candidateAnimals) * old(questions[qIdx]).Answering(satisfies)
      ensures qIdx == if old(qIdx) != |questions| - 1 then old(qIdx) + 1 else old(qIdx)
      ensures questions == old(questions) && allAnimals == old(allAnimals)
    {
      solnAnswers := solnAnswers.AddResponse(satisfies);
      var current := questions[qIdx];
      candidateAnimals := current.TrimOutInvalidAnimals(candidateAnimals, satisfies);
      if qIdx != NumQuestions() - 1 {
        qIdx := qIdx + 1;
      }
    }
  }

  /** The opening position: one question, "can you ride it?", that a horse
      satisfies and a swan does not. */
  function RideQuestion(): Question {
    Question("can you ride it?", map[]).AddAnswer("horse", true).AddAnswer("swan", false)
  }

  /** With the opening position, the rideable animals are exactly ["horse"];
      answering yes leaves the horse as the guess and answering no the
      swan. */
  method OpeningGuesses() returns (riders: seq<string>, guessYes: string, guessNo: string)
    ensures riders == ["horse"] && guessYes == "horse" && guessNo == "swan"
  {
    var q := RideQuestion();
    assert q.answerSet == map["horse" := true, "swan" := false];
    riders := q.GetAnimalsSatisfying(true);
    assert "horse" in riders;
    assert forall a :: a in riders ==> a == "horse";
    if |riders| >= 2 {
      assert riders[0] in riders && riders[1] in riders;
      LexLessIrreflexive("horse");
      assert false;
    }
    var yes := new AiEngine({"horse", "swan"}, [q]);
    yes.AskQuestionStep(true);
    assert yes.candidateAnimals == {"horse"};
    guessYes := yes.Guess();
    var no := new AiEngine({"horse", "swan"}, [q]);
    no.AskQuestionStep(false);
    assert no.candidateAnimals == {"swan"};
    guessNo := no.Guess();
  }

  /** The first game from the opening position: the player thinks of a
      camel and answers yes to "can you ride it?"; the engine guesses the
      horse, is told the camel, and learns it with a second question. */
  method LearnCamel() returns (e: AiEngine)
    ensures fresh(e) && e.Valid()
    ensures e.solnAnswers.answerSet == [true] && |e.questions| == 2
  {
    e := new AiEngine({"horse", "swan"}, [RideQuestion()]);
    e.AskQuestionStep(true);
    e.InternalizeSoln("camel", "does it have humps?");
  }

  /** A second game after `LearnCamel`: the player thinks of a duck and
      answers no to both questions. With `reset` as written, the engine records
      the duck as rideable (it reads the first game's response); with the
      intended `reset` it records the duck as not rideable. */
  method ResetScenario() returns (duckRideableAsWritten: bool, duckRideableIntended: bool)
    ensures duckRideableAsWritten && !duckRideableIntended
  {
    var e1 := LearnCamel();
    e1.ResetAsWritten();
    e1.AskQuestionStep(false);
    e1.AskQuestionStep(false);
    e1.InternalizeSoln("duck", "does it quack?");
    duckRideableAsWritten := e1.questions[0].answerSet["duck"];

    var e2 := LearnCamel();
    e2.Reset();
    e2.AskQuestionStep(false);
    e2.AskQuestionStep(false);
    e2.InternalizeSoln("duck", "does it quack?");
    duckRideableIntended := e2.questions[0].answerSet["duck"];
  }
}
