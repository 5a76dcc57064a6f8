/** The question box: the knowledge-base paragraph most similar to the
    question is the answer. Similarities come from the sentence encoder and
    cosine similarity, outside the model; they enter as integers, one per
    paragraph, in paragraph order. */
module Assistant {
  import opened TextOps

  /** numpy's `argmax`: the position of the largest score, the first one
      when several tie. */
  function ArgMax(scores: seq<int>): (best: nat)
    requires |scores| > 0
    ensures best < |scores|
    ensures forall j | 0 <= j < |scores| :: scores[j] <= scores[best]
    ensures forall j | 0 <= j < best :: scores[j] < scores[best]
  {
    if |scores| == 1 then
      0
    else
      var last := |scores| - 1;
      var best := ArgMax(scores[..last]);
      assert forall j | 0 <= j < last :: scores[..last][j] == scores[j];
      if scores[last] > scores[best] then last else best
  }

  /** The two properties `ArgMax` promises pin its result down. */
  lemma ArgMaxUnique(scores: seq<int>, k: nat)
    requires k < |scores|
    requires forall j | 0 <= j < |scores| :: scores[j] <= scores[k]
    requires forall j | 0 <= j < k :: scores[j] < scores[k]
    ensures k == ArgMax(scores)
  {
  }

  /** What the question box shows. */
  datatype Reply =
    | EmptyQuestion                      // "Please include some text before submitting."
    | EmptyKnowledgeBase                 // cosine similarity against no paragraphs raises
    | Answer(index: nat, paragraph: string)

  /** The "Ask" button: a blank question only warns; otherwise the most
      similar paragraph is the answer. `scores` are the question's
      similarities to the paragraphs. */
  function Ask(question: string, paragraphs: seq<string>, scores: seq<int>): (reply: Reply)
    requires |scores| == |paragraphs|
    ensures reply.EmptyQuestion? <==> AllSpace(question)
    ensures reply.EmptyKnowledgeBase? <==> !AllSpace(question) && paragraphs == []
    ensures reply.Answer? ==>
      && reply.index < |paragraphs|
      && reply.paragraph == paragraphs[reply.index]
      && (forall j | 0 <= j < |scores| :: scores[j] <= scores[reply.index])
      && (forall j | 0 <= j < reply.index :: scores[j] < scores[reply.index])
  {
    if Strip(question) == [] then
      EmptyQuestion
    else if paragraphs == [] then
      EmptyKnowledgeBase
    else
      var best := ArgMax(scores);
      Answer(best, paragraphs[best])
  }

  /** Example: with two paragraphs and the first one the more
      similar to the question, the first one is the answer. */
  lemma FirstParagraphWins(question: string, first: string, second: string, s1: int, s2: int)
    requires !AllSpace(question) && s1 > s2
    ensures Ask(question, [first, second], [s1, s2]) == Answer(0, first)
  {
    var best := ArgMax([s1, s2]);
    assert best == 0;
  }
}
