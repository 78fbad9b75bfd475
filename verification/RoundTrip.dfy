/** Printing, parsing and building compose to the identity, and the pretty printer keeps the meaning. */
module RoundTrip {
  import opened Bytes
  import opened Sax
  import opened Dom
  import opened Layout
  import opened ReadBack
  import Descent
  import Pushdown
  import ParserEquivalence

  /** Printing a value, parsing the text and building from the events leaves exactly that value on the stack. */
  lemma PrintParseBuild(cfg: Config, st: Style, v: Value)
    requires AcceptsAll(cfg) && ValidFormat(st.format) && WellFormed(v) && Printable(st.target, v)
    ensures var o := Descent.Parse(cfg, Print(st, v, 0));
      o.Fine? && o.pos == |Print(st, v, 0)| && Build([], o.log) == Some([v])
  {
    ReadText(cfg, st, v);
    BuildValue([], v, true);
    assert [] + [v] == [v];
  }

  /** The table-driven parser completes the same round trip. */
  lemma PrintIterativeParseBuild(cfg: Config, st: Style, v: Value)
    requires AcceptsAll(cfg) && ValidFormat(st.format) && WellFormed(v) && Printable(st.target, v)
    ensures var o := Pushdown.Parse(cfg, Print(st, v, 0));
      o.Fine? && o.pos == |Print(st, v, 0)| && Build([], o.log) == Some([v])
  {
    PrintParseBuild(cfg, st, v);
    ParserEquivalence.ParsersAgree(cfg, Print(st, v, 0));
  }

  /** The events a value hands to a writer also build that value: a DOM is copied by `Accept` into a builder. */
  lemma AcceptBuilds(v: Value)
    requires WellFormed(v)
    ensures Build([], Accept(v)) == Some([v])
  {
    BuildValue([], v, false);
    assert [] + [v] == [v];
  }

  /** Whatever the indentation, array option and target, the text parses to the events of the compact text. */
  lemma PrettyKeepsMeaning(cfg: Config, a: Style, b: Style, v: Value)
    requires AcceptsAll(cfg) && ValidFormat(a.format) && ValidFormat(b.format) && WellFormed(v)
    requires Printable(a.target, v) && Printable(b.target, v)
    ensures var x, y := Descent.Parse(cfg, Print(a, v, 0)), Descent.Parse(cfg, Print(b, v, 0));
      x.Fine? && y.Fine? && x.log == y.log
  {
    ReadText(cfg, a, v);
    ReadText(cfg, b, v);
  }
}
