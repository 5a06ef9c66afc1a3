/**
 * The fixed checklist of tasks every synchronized commit receives: a constant
 * table of (stage, name, required capabilities) rows, bound to one checklist.
 */
module TaskTemplate {
  import opened Db

  const New := "New"

  /** The number of rows of the template. */
  const TemplateSize := 13

  /** One row of the template: the stage, the task's name, and the
      capabilities an agent needs to claim it. */
  datatype TemplateRow = TemplateRow(stageName: string, name: string, requiredCapabilities: seq<string>)

  /** The rows of the template, in the order the tasks are put. */
  const TaskTemplate: seq<TemplateRow> := [
    TemplateRow("travis", "travis", ["can-update-travis"]),

    TemplateRow("chromebot", "mac_bot", ["can-update-chromebots"]),
    TemplateRow("chromebot", "linux_bot", ["can-update-chromebots"]),

    TemplateRow("devicelab", "complex_layout_scroll_perf__timeline_summary", ["has-android-device"]),
    TemplateRow("devicelab", "flutter_gallery__start_up", ["has-android-device"]),
    TemplateRow("devicelab", "complex_layout__start_up", ["has-android-device"]),
    TemplateRow("devicelab", "flutter_gallery__transition_perf", ["has-android-device"]),
    TemplateRow("devicelab", "mega_gallery__refresh_time", ["has-android-device"]),

    TemplateRow("devicelab", "flutter_gallery__build", ["has-android-device"]),
    TemplateRow("devicelab", "complex_layout__build", ["has-android-device"]),
    TemplateRow("devicelab", "basic_material_app__size", ["has-android-device"]),

    TemplateRow("devicelab", "analyzer_cli__analysis_time", ["has-android-device"]),
    TemplateRow("devicelab", "analyzer_server__analysis_time", ["has-android-device"])
  ]

  /** A task that no agent has touched yet, bound to `checklistKey`. */
  function MakeTask(checklistKey: ChecklistKey, row: TemplateRow): Task {
    Task(checklistKey, row.stageName, row.name, row.requiredCapabilities, New, 0, 0)
  }

  function CreateTaskList(checklistKey: ChecklistKey): (tasks: seq<Task>)
    ensures |tasks| == TemplateSize
    ensures forall i :: 0 <= i < |tasks| ==>
      && tasks[i].checklistKey == checklistKey
      && tasks[i].stageName == TaskTemplate[i].stageName
      && tasks[i].name == TaskTemplate[i].name
      && tasks[i].requiredCapabilities == TaskTemplate[i].requiredCapabilities
      && tasks[i].status == New
      && tasks[i].startTimestamp == 0
      && tasks[i].endTimestamp == 0
  {
    seq(|TaskTemplate|, i requires 0 <= i < |TaskTemplate| => MakeTask(checklistKey, TaskTemplate[i]))
  }

  /** The template does not depend on the checklist it is bound to: the task
      lists of two keys differ only in the key. */
  lemma TemplateIndependentOfKey(k1: ChecklistKey, k2: ChecklistKey)
    ensures forall i :: 0 <= i < TemplateSize ==>
      CreateTaskList(k1)[i].(checklistKey := k2) == CreateTaskList(k2)[i]
  {
  }
}
