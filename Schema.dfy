/** The rows of the two tables of tasks.db (`tasks` and `task_history`) and the
    fixed texts that the store writes into them. */
module Schema {

  datatype Option<T> = None | Some(value: T)

  /** The `status` column. The store only ever writes the two strings of StatusText. */
  datatype Status = Incomplete | Completed

  /** The `change_type` column of `task_history`. */
  datatype ChangeType = Created | Updated | MarkedCompleted

  function StatusText(s: Status): string
  {
    match s
    case Incomplete => "incomplete"
    case Completed => "completed"
  }

  function ChangeTypeText(c: ChangeType): string
  {
    match c
    case Created => "created"
    case Updated => "updated"
    case MarkedCompleted => "completed"
  }

  /** Distinct enumeration values are stored as distinct strings, so the
      enumerations lose nothing of the weakly typed columns. */
  lemma StoredTextsAreDistinct(s1: Status, s2: Status, c1: ChangeType, c2: ChangeType)
    ensures StatusText(s1) == StatusText(s2) <==> s1 == s2
    ensures ChangeTypeText(c1) == ChangeTypeText(c2) <==> c1 == c2
  {
  }

  /** A row of `tasks`. `updatedAt` is NULL (None) until the first edit or completion. */
  datatype Task = Task(
    id: int,
    title: string,
    description: string,
    status: Status,
    createdAt: string,
    updatedAt: Option<string>)

  /** A row of `task_history`. */
  datatype Entry = Entry(
    historyId: int,
    taskId: int,
    changeType: ChangeType,
    description: string,
    timestamp: string)

  // The change_description templates.

  function CreatedText(title: string): string
  {
    "Task '" + title + "' was created."
  }

  function UpdatedText(oldTitle: string, newTitle: string): string
  {
    "Task '" + oldTitle + "' was updated to '" + newTitle + "'."
  }

  function CompletedText(title: string): string
  {
    "Task '" + title + "' was marked as completed."
  }

  /** The title that a "created" description names: what lies between the
      fixed prefix and the fixed suffix of the template. */
  function CreatedTitle(d: string): (title: string)
    requires |d| >= 20
    ensures |title| == |d| - 20
  {
    d[6..|d| - 14]
  }

  function CompletedTitle(d: string): (title: string)
    requires |d| >= 32
    ensures |title| == |d| - 32
  {
    d[6..|d| - 26]
  }

  /** Every template embeds the title it was given, and that title can be read
      back from the stored description. */
  lemma CreatedTextNamesTitle(title: string)
    ensures |CreatedText(title)| == |title| + 20
    ensures CreatedText(title)[..6] == "Task '"
    ensures CreatedTitle(CreatedText(title)) == title
  {
  }

  lemma CompletedTextNamesTitle(title: string)
    ensures |CompletedText(title)| == |title| + 32
    ensures CompletedText(title)[..6] == "Task '"
    ensures CompletedTitle(CompletedText(title)) == title
  {
  }

  /** An "updated" description embeds the previous title right after the
      prefix and the new title right before the closing "'.". */
  lemma UpdatedTextNamesBothTitles(oldTitle: string, newTitle: string)
    ensures |UpdatedText(oldTitle, newTitle)| == |oldTitle| + |newTitle| + 26
    ensures UpdatedText(oldTitle, newTitle)[6..6 + |oldTitle|] == oldTitle
    ensures var d := UpdatedText(oldTitle, newTitle);
            d[|d| - 2 - |newTitle|..|d| - 2] == newTitle
  {
  }
}
