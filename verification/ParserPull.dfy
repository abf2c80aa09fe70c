/** Pulling one event at a time gives what the push interface gives. */
module ParserPull {
  import opened JsonSyntax
  import opened Pushdown

  /** Between calls, and inside one across delimiters, the pull interface is the loop of
      IterativeParse, except on a text of nothing but whitespace. */
  lemma {:induction false} PullFollowsRun(fl: Flags, h: Handler, c: Config)
    requires StackFits(c.state, c.stack) && c.state != Finish
    requires c.state == Start && Skip(c.rest) == [] ==> c.rest == []
    ensures PullAll(fl, h, c) == Run(fl, h, c.(rest := Skip(c.rest)))
    decreases |c.rest|
  {
    if c.rest != [] {
      var s := c.(rest := Skip(c.rest));
      var dst := Predict(s.state, Tokenize(s.rest));
      var step := Transit(fl, h, s, dst);
      if step.Moved? {
        Turn(fl, h, s, step.c);
        if step.c.state != Finish {
          if IsDelimiter(dst) {
            assert IterativeParseNext(fl, h, c) == IterativeParseNext(fl, h, step.c);
          }
          PullFollowsRun(fl, h, step.c);
        }
      }
    }
  }

  /** For every text, flags and handler: calling IterativeParseNext until the document is
      complete accepts what IterativeParse accepts, with the same events and the same text left
      unread, and fails with the same code after the same events. The one exception is a text of
      one or more whitespace characters and nothing else: there the next character is classified
      before the end of input is noticed, and the code is that of an invalid value. */
  lemma {:induction false} PullAgrees(fl: Flags, h: Handler, ts: seq<Token>)
    ensures
      var pulled, pushed := PullAll(fl, h, Config(Start, Bottom, ts, [])), IterativeParse(fl, h, ts);
      if ts != [] && Skip(ts) == [] then
        pulled == Failed(ValueInvalid, []) && pushed == Failed(DocumentEmpty, [])
      else
        pulled == pushed
  {
    if !(ts != [] && Skip(ts) == []) {
      PullFollowsRun(fl, h, Config(Start, Bottom, ts, []));
    }
  }
}
