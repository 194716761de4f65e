/**
 * The deterministic string work around one generation: the prompt
 * parameters derived from the form (`generar_proyecto`) and the content of
 * the exported markdown file (`render`).
 */
module Generation {
  import opened Wrappers
  import opened Text
  import opened ProjectFormat

  /** `materia[0]` on an empty list raises `IndexError`. */
  datatype PromptError = IndexError

  /** `prompt_materias`: the selected subjects, comma separated. */
  function PromptMaterias(materia: seq<string>): (r: Result<string, PromptError>)
    ensures r.Failure? <==> |materia| == 0
    ensures r.Success? ==> r.value == Join(", ", materia)
  {
    if |materia| > 1 then Success(Join(", ", materia))
    else if |materia| == 1 then Success(materia[0])
    else Failure(IndexError)
  }

  /** `prompt_internet`: the word the prompt uses for the internet-access clause. */
  function PromptInternet(accesoInternet: bool): (r: string)
    ensures r == "con" <==> accesoInternet
    ensures r == "sin" <==> !accesoInternet
  {
    if accesoInternet then "con" else "sin"
  }

  /** One subject is passed on unchanged. */
  lemma PromptMateriasSingle(subject: string)
    ensures PromptMaterias([subject]) == Success(subject)
  {
  }

  /** Every selected subject appears verbatim in the prompt parameter, at its join offset. */
  lemma PromptMateriasContains(materia: seq<string>, i: nat)
    requires i < |materia|
    ensures PromptMaterias(materia).Success?
    ensures var s := PromptMaterias(materia).value;
      var o := JoinOffset(", ", materia, i);
      o + |materia[i]| <= |s| && s[o..o + |materia[i]|] == materia[i]
  {
    JoinContains(", ", materia, i);
  }

  /** One more selected subject adds `", "` and that subject at the end. */
  lemma PromptMateriasSnoc(materia: seq<string>, subject: string)
    requires |materia| > 0
    ensures PromptMaterias(materia + [subject])
         == Success(PromptMaterias(materia).value + ", " + subject)
  {
    JoinSnoc(", ", materia, subject);
  }

  /**
   * `project_name`: the title line shown above the project and written first
   * to the file: a first-level heading naming the topic, then a blank line.
   */
  function ProjectTitle(tema: string): (r: string)
    ensures StartsWith(r, "# Proyecto: ")
    ensures r[|"# Proyecto: "|..] == tema + "\n\n"
  {
    "# Proyecto: " + tema + "\n\n"
  }

  /**
   * What `render` writes to `proyecto.md`: the title, then the project's six
   * sections in their fixed order.
   */
  function ExportContent(tema: string, project: Project): (r: string)
    ensures r == ProjectTitle(tema) + ProjectDocument(project)
  {
    ToJsonMarkdown(project);
    ProjectTitle(tema) + Markdown(ToJson(project)).value
  }

  /** The exported file starts with the title line, whatever the project. */
  lemma ExportStartsWithTitle(tema: string, project: Project)
    ensures StartsWith(ExportContent(tema, project), ProjectTitle(tema))
  {
    var t := ProjectTitle(tema);
    assert (t + ProjectDocument(project))[..|t|] == t;
  }
}
