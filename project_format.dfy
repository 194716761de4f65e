/**
 * The project document and its markdown rendering: the `Project` record,
 * its fixed key order (`to_json`) and `format_project_in_markdown`.
 */
module ProjectFormat {
  import opened Wrappers
  import opened Text

  /**
   * A value of the decoded JSON object: a string, a list of strings, or any
   * other JSON value (number, boolean, null, nested object, mixed list).
   */
  datatype Value = Str(s: string) | Arr(items: seq<string>) | Other

  type Entry = (string, Value)

  predicate DistinctKeys(d: seq<Entry>) {
    forall i, j :: 0 <= i < j < |d| ==> d[i].0 != d[j].0
  }

  /** An insertion-ordered dictionary: entries in order, each key at most once. */
  type Dict = d: seq<Entry> | DistinctKeys(d) witness []

  const SUMMARY: string := "Summary"
  const EVALUATION: string := "Evaluation"

  /** The generated lesson plan (`Project` in main.py). */
  datatype Project = Project(
    summary: string,
    objetivos: seq<string>,
    materiales: seq<string>,
    actividades: seq<string>,
    entregables: seq<string>,
    evaluation: string)

  /** An entry the formatter renders without raising. */
  predicate Renderable(e: Entry) {
    if e.0 == SUMMARY || e.0 == EVALUATION then e.1.Str? else !e.1.Other?
  }

  predicate WellTyped(d: seq<Entry>) {
    forall i :: 0 <= i < |d| ==> Renderable(d[i])
  }

  /** `Project.to_json`: the six fields under their keys, in declaration order. */
  function ToJson(p: Project): (d: Dict)
    ensures WellTyped(d)
    ensures |d| == 6 && d[0] == (SUMMARY, Str(p.summary)) && d[5] == (EVALUATION, Str(p.evaluation))
  {
    [(SUMMARY, Str(p.summary)),
     ("Objetivos", Arr(p.objetivos)),
     ("Materiales", Arr(p.materiales)),
     ("Actividades", Arr(p.actividades)),
     ("Entregables", Arr(p.entregables)),
     (EVALUATION, Str(p.evaluation))]
  }

  /** `k in d`, with the position of the entry that holds `k`. */
  function IndexOf(d: seq<Entry>, k: string): (r: Option<nat>)
    ensures r.Some? ==> r.value < |d| && d[r.value].0 == k
    ensures r.Some? ==> forall j :: 0 <= j < r.value ==> d[j].0 != k
    ensures r.None? ==> forall j :: 0 <= j < |d| ==> d[j].0 != k
    decreases |d|
  {
    if |d| == 0 then None
    else if d[0].0 == k then Some(0)
    else match IndexOf(d[1..], k)
      case None => None
      case Some(i) => Some(i + 1)
  }

  /** `d` once the entry at position `i` is popped. */
  function Without(d: seq<Entry>, i: nat): (r: seq<Entry>)
    requires i < |d|
    ensures |r| == |d| - 1
    ensures forall j :: 0 <= j < i ==> r[j] == d[j]
    ensures forall j :: i <= j < |r| ==> r[j] == d[j + 1]
  {
    d[..i] + d[i + 1..]
  }

  /** Both parts rendered, one after the other; a failure in either is a failure. */
  function Append(a: Option<string>, b: Option<string>): Option<string> {
    if a.Some? && b.Some? then Some(a.value + b.value) else None
  }

  lemma AppendAssoc(a: Option<string>, b: Option<string>, c: Option<string>)
    ensures Append(a, Append(b, c)) == Append(Append(a, b), c)
  {
    if a.Some? && b.Some? && c.Some? {
      assert a.value + (b.value + c.value) == (a.value + b.value) + c.value;
    }
  }

  lemma AppendEmpty(a: Option<string>)
    ensures Append(a, Some("")) == a
    ensures Append(Some(""), a) == a
  {
    if a.Some? { assert a.value + "" == a.value; assert "" + a.value == a.value; }
  }

  /**
   * What `for i in val` enumerates: the characters of a string, the items of
   * a list; any other value is not iterable as modelled.
   */
  function ItemsOf(v: Value): (r: Option<seq<string>>)
    ensures r.Some? <==> !v.Other?
    ensures v.Arr? ==> r == Some(v.items)
    ensures v.Str? ==> r == Some(Chars(v.s))
  {
    match v
    case Str(s) => Some(Chars(s))
    case Arr(xs) => Some(xs)
    case Other => None
  }

  function Bullets(items: seq<string>): seq<string> {
    seq(|items|, i requires 0 <= i < |items| => "- " + items[i])
  }

  /**
   * `"\n".join([f"- {i}" for i in val])`: nothing for no items, and a single
   * item is one bullet line with no newline.
   */
  function BulletList(items: seq<string>): (r: string)
    ensures |items| == 0 ==> r == ""
    ensures |items| == 1 ==> r == "- " + items[0]
  {
    Join("\n", Bullets(items))
  }

  /** A second-level markdown heading followed by a blank line. */
  function Heading(title: string): string {
    "## " + title + "\n\n"
  }

  /** A heading over a paragraph of text. */
  function TextBlock(title: string, text: string): string {
    Heading(title) + text + "\n\n"
  }

  /** A heading over a bullet list. */
  function ListBlock(title: string, items: seq<string>): string {
    Heading(title) + BulletList(items) + "\n\n"
  }

  /**
   * The description block that `Summary` becomes: it exists exactly for a
   * string (anything else makes `+ "\n\n"` raise) and opens with its heading.
   */
  function SummarySection(v: Value): (r: Option<string>)
    ensures r.Some? <==> v.Str?
    ensures r.Some? ==> StartsWith(r.value, Heading("Descripción"))
  {
    if v.Str? then
      var h := Heading("Descripción");
      assert (h + v.s + "\n\n")[..|h|] == h;
      Some(TextBlock("Descripción", v.s))
    else None
  }

  /**
   * The block one loop iteration appends: it exists exactly when the
   * iteration does not raise, and opens with the heading for the key.
   */
  function Section(key: string, v: Value): (r: Option<string>)
    ensures r.Some? <==> (if key == EVALUATION then v.Str? else !v.Other?)
  {
    if key == EVALUATION then
      if v.Str? then
        var h := Heading("Evaluación");
        assert (h + v.s + "\n\n")[..|h|] == h;
        Some(TextBlock("Evaluación", v.s))
      else None
    else
      match ItemsOf(v)
      case None => None
      case Some(items) =>
        var h := Heading(key);
        assert (h + BulletList(items) + "\n\n")[..|h|] == h;
        Some(ListBlock(key, items))
  }

  /**
   * The loop over the remaining entries, in insertion order: no entries leave
   * the text as it is, and an entry that raises stops the loop with an error.
   */
  function Sections(d: seq<Entry>): (r: Option<string>)
    ensures |d| == 0 ==> r == Some("")
    ensures |d| > 0 && Section(d[0].0, d[0].1).None? ==> r.None?
    decreases |d|
  {
    if |d| == 0 then Some("") else Append(Section(d[0].0, d[0].1), Sections(d[1..]))
  }

  /**
   * What `format_project_in_markdown` returns, or `None` when it raises:
   * the `Summary` block first, then every other entry in order. A `Summary`
   * that is not a string raises; otherwise its heading opens the output.
   */
  function Markdown(d: seq<Entry>): (r: Option<string>)
    ensures IndexOf(d, SUMMARY).Some? && !d[IndexOf(d, SUMMARY).value].1.Str? ==> r.None?
    ensures IndexOf(d, SUMMARY).Some? && r.Some? ==> StartsWith(r.value, Heading("Descripción"))
  {
    match IndexOf(d, SUMMARY)
    case None => Sections(d)
    case Some(i) =>
      var first := SummarySection(d[i].1);
      var rest := Sections(Without(d, i));
      assert first.Some? && rest.Some? ==> (first.value + rest.value)[..|Heading("Descripción")|] == Heading("Descripción");
      Append(first, rest)
  }

  /**
   * `format_project_in_markdown`: works on a private copy, pops `Summary`,
   * then appends one block per remaining entry.
   */
  method FormatProjectInMarkdown(jsonData: Dict) returns (r: Option<string>)
    ensures r == Markdown(jsonData)
  {
    var data: seq<Entry> := jsonData;
    var text := "";
    var at := IndexOf(data, SUMMARY);
    if at.Some? {
      var i := at.value;
      var v := data[i].1;
      if !v.Str? {
        return None;
      }
      text := text + "## Descripción\n\n";
      text := text + v.s + "\n\n";
      data := Without(data, i);
      assert Markdown(jsonData) == Append(Some(text), Sections(data)) by {
        assert text == SummarySection(v).value;
      }
    } else {
      assert Markdown(jsonData) == Append(Some(text), Sections(data)) by {
        AppendEmpty(Sections(data));
      }
    }
    r := AppendSections(text, data);
  }

  /** The `for` loop of `format_project_in_markdown`: one block per entry, in order. */
  method AppendSections(start: string, data: seq<Entry>) returns (r: Option<string>)
    ensures r == Append(Some(start), Sections(data))
  {
    var text := start;
    ghost var body := "";
    var k := 0;
    while k < |data|
      invariant 0 <= k <= |data|
      invariant text == start + body
      invariant Sections(data[..k]) == Some(body)
    {
      var key := data[k].0;
      var val := data[k].1;
      SectionsSnoc(data, k);
      var next := AppendSection(text, key, val);
      if next.None? {
        SectionsFailAt(data, k);
        return None;
      }
      ConcatAssoc(start, body, Section(key, val).value);
      text := next.value;
      body := body + Section(key, val).value;
      k := k + 1;
    }
    assert data[..k] == data;
    r := Some(text);
  }

  /** One iteration of the loop: append the block for `key` and `val` to `text`. */
  method AppendSection(text: string, key: string, val: Value) returns (r: Option<string>)
    ensures r.Some? <==> Section(key, val).Some?
    ensures r.Some? ==> r.value == text + Section(key, val).value
  {
    var out := text;
    if key == EVALUATION {
      if !val.Str? {
        return None;
      }
      out := out + "## Evaluación\n\n";
      out := out + val.s + "\n\n";
      assert out == text + TextBlock("Evaluación", val.s);
    } else {
      var items := ItemsOf(val);
      if items.None? {
        return None;
      }
      out := out + "## " + key + "\n\n";
      assert out == text + Heading(key);
      out := out + BulletList(items.value) + "\n\n";
      assert out == text + ListBlock(key, items.value);
    }
    r := Some(out);
  }

  lemma {:induction false} SectionsAppend(a: seq<Entry>, b: seq<Entry>)
    ensures Sections(a + b) == Append(Sections(a), Sections(b))
    decreases |a|
  {
    if |a| == 0 {
      assert a + b == b;
      if Sections(b).Some? { assert "" + Sections(b).value == Sections(b).value; }
    } else {
      assert (a + b)[1..] == a[1..] + b;
      SectionsAppend(a[1..], b);
      AppendAssoc(Section(a[0].0, a[0].1), Sections(a[1..]), Sections(b));
    }
  }

  lemma SectionsSnoc(d: seq<Entry>, k: nat)
    requires k < |d|
    ensures Sections(d[..k + 1]) == Append(Sections(d[..k]), Section(d[k].0, d[k].1))
  {
    assert d[..k + 1] == d[..k] + [d[k]];
    SectionsAppend(d[..k], [d[k]]);
    AppendEmpty(Section(d[k].0, d[k].1));
  }

  /** One entry that raises makes the whole loop raise. */
  lemma {:induction false} SectionsFailAt(d: seq<Entry>, k: nat)
    requires k < |d| && Section(d[k].0, d[k].1).None?
    ensures Sections(d).None?
    decreases k
  {
    if k > 0 {
      assert d[1..][k - 1] == d[k];
      SectionsFailAt(d[1..], k - 1);
    }
  }

  function SectionTexts(d: seq<Entry>): seq<string>
    requires forall i :: 0 <= i < |d| ==> Section(d[i].0, d[i].1).Some?
  {
    seq(|d|, i requires 0 <= i < |d| => Section(d[i].0, d[i].1).value)
  }

  /**
   * The loop renders without raising exactly when every entry does, and then
   * its output is one block per entry, concatenated in insertion order.
   */
  lemma {:induction false} SectionsInOrder(d: seq<Entry>)
    ensures Sections(d).Some? <==> forall i :: 0 <= i < |d| ==> Section(d[i].0, d[i].1).Some?
    ensures Sections(d).Some? ==> Sections(d).value == Concat(SectionTexts(d))
    decreases |d|
  {
    if |d| > 0 {
      SectionsInOrder(d[1..]);
      if Sections(d).Some? {
        assert Sections(d[1..]).Some?;
        forall i | 0 <= i < |d| ensures Section(d[i].0, d[i].1).Some? {
          if i > 0 { assert d[1..][i - 1] == d[i]; }
        }
        assert SectionTexts(d)[1..] == SectionTexts(d[1..]);
      } else if Section(d[0].0, d[0].1).Some? {
        assert Sections(d[1..]).None?;
        var j :| 0 <= j < |d[1..]| && Section(d[1..][j].0, d[1..][j].1).None?;
        assert d[1..][j] == d[j + 1];
      }
    }
  }

  /** A key other than `Summary` renders without raising exactly when its entry is well typed. */
  lemma SectionDefined(e: Entry)
    requires e.0 != SUMMARY
    ensures Section(e.0, e.1).Some? <==> Renderable(e)
  {
  }

  /** Removing the entry that holds `Summary` leaves no entry with that key. */
  lemma SummaryRemoved(d: Dict, i: nat)
    requires i < |d| && d[i].0 == SUMMARY
    ensures forall j :: 0 <= j < |Without(d, i)| ==> (Without(d, i))[j].0 != SUMMARY
  {
    forall j | 0 <= j < |Without(d, i)| ensures (Without(d, i))[j].0 != SUMMARY {
      if j < i {
        assert (Without(d, i))[j] == d[j];
      } else {
        assert (Without(d, i))[j] == d[j + 1];
      }
    }
  }

  /** The formatter never raises on a well-typed dictionary, and only on one. */
  lemma MarkdownDefinedIff(d: Dict)
    ensures Markdown(d).Some? <==> WellTyped(d)
  {
    match IndexOf(d, SUMMARY)
    case None =>
      SectionsInOrder(d);
      forall i | 0 <= i < |d| ensures Section(d[i].0, d[i].1).Some? <==> Renderable(d[i]) {
        SectionDefined(d[i]);
      }
    case Some(i) =>
      var rest := Without(d, i);
      SectionsInOrder(rest);
      SummaryRemoved(d, i);
      forall j | 0 <= j < |rest| ensures Section(rest[j].0, rest[j].1).Some? <==> Renderable(rest[j]) {
        SectionDefined(rest[j]);
      }
      if WellTyped(d) {
        assert Renderable(d[i]);
        forall j | 0 <= j < |rest| ensures Renderable(rest[j]) {
          if j < i { assert rest[j] == d[j]; } else { assert rest[j] == d[j + 1]; }
        }
      }
      if Markdown(d).Some? {
        forall j | 0 <= j < |d| ensures Renderable(d[j]) {
          if j < i { assert rest[j] == d[j]; }
          else if j > i { assert rest[j - 1] == d[j]; }
        }
      }
  }

  /**
   * Wherever `Summary` sits in the dictionary, its block comes first and the
   * rest is the other entries in their order, with `Summary` not among them;
   * so moving `Summary` to the front does not change the output.
   */
  lemma SummaryFirst(d: Dict, i: nat)
    requires i < |d| && d[i].0 == SUMMARY
    ensures Markdown(d) == Append(SummarySection(d[i].1), Sections(Without(d, i)))
    ensures forall j :: 0 <= j < |Without(d, i)| ==> (Without(d, i))[j].0 != SUMMARY
    ensures Markdown(d) == Markdown([d[i]] + Without(d, i))
  {
    SummaryRemoved(d, i);
    var front := [d[i]] + Without(d, i);
    assert front[0] == d[i];
    assert front[..0] + front[1..] == Without(d, i);
  }

  /** A dictionary without `Summary` is rendered as its entries in order. */
  lemma NoSummary(d: seq<Entry>)
    requires forall j :: 0 <= j < |d| ==> d[j].0 != SUMMARY
    ensures Markdown(d) == Sections(d)
  {
  }

  /** Each bullet item sits on a line of its own, in order. */
  lemma BulletLines(items: seq<string>)
    requires |items| > 0
    requires forall i :: 0 <= i < |items| ==> '\n' !in items[i]
    ensures Split('\n', BulletList(items)) == Bullets(items)
  {
    var b := Bullets(items);
    forall i | 0 <= i < |b| ensures '\n' !in b[i] {
      assert b[i] == "- " + items[i];
    }
    SplitJoin('\n', b);
  }

  /** Reference rendering of a complete project: its six blocks in the order of its fields. */
  function ProjectDocument(p: Project): string {
    Concat([
      TextBlock("Descripción", p.summary),
      ListBlock("Objetivos", p.objetivos),
      ListBlock("Materiales", p.materiales),
      ListBlock("Actividades", p.actividades),
      ListBlock("Entregables", p.entregables),
      TextBlock("Evaluación", p.evaluation)])
  }

  /**
   * Formatting `to_json()` gives the six sections in the fixed order
   * Descripción, Objetivos, Materiales, Actividades, Entregables, Evaluación.
   */
  lemma ToJsonMarkdown(p: Project)
    ensures Markdown(ToJson(p)) == Some(ProjectDocument(p))
  {
    var d := ToJson(p);
    assert IndexOf(d, SUMMARY) == Some(0);
    var blocks := [
      TextBlock("Descripción", p.summary),
      ListBlock("Objetivos", p.objetivos),
      ListBlock("Materiales", p.materiales),
      ListBlock("Actividades", p.actividades),
      ListBlock("Entregables", p.entregables),
      TextBlock("Evaluación", p.evaluation)];
    ToJsonSections(p);
    assert blocks[1..] == SectionTexts(Without(d, 0));
  }

  /** The five entries after `Summary` in `to_json()` each render as their own block, in order. */
  lemma ToJsonSections(p: Project)
    ensures forall i :: 0 <= i < 5 ==> Section(Without(ToJson(p), 0)[i].0, Without(ToJson(p), 0)[i].1).Some?
    ensures SectionTexts(Without(ToJson(p), 0)) == [
      ListBlock("Objetivos", p.objetivos),
      ListBlock("Materiales", p.materiales),
      ListBlock("Actividades", p.actividades),
      ListBlock("Entregables", p.entregables),
      TextBlock("Evaluación", p.evaluation)]
    ensures Sections(Without(ToJson(p), 0)) == Some(Concat(SectionTexts(Without(ToJson(p), 0))))
  {
    var rest := Without(ToJson(p), 0);
    assert "Materiales"[0] != EVALUATION[0] && "Objetivos"[0] != EVALUATION[0];
    assert "Actividades"[0] != EVALUATION[0] && "Entregables"[1] != EVALUATION[1];
    assert Section(rest[0].0, rest[0].1) == Some(ListBlock("Objetivos", p.objetivos));
    assert Section(rest[1].0, rest[1].1) == Some(ListBlock("Materiales", p.materiales));
    assert Section(rest[2].0, rest[2].1) == Some(ListBlock("Actividades", p.actividades));
    assert Section(rest[3].0, rest[3].1) == Some(ListBlock("Entregables", p.entregables));
    assert Section(rest[4].0, rest[4].1) == Some(TextBlock("Evaluación", p.evaluation));
    SectionsInOrder(rest);
  }

  /** The empty dictionary formats to the empty string. */
  lemma MarkdownEmpty()
    ensures Markdown([]) == Some("")
  {
  }
}
