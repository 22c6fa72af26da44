/**
 The data model of the task service: a task record and the in-memory store
 that maps a task identifier to the task filed under it.
 */
module TaskStore {

  /** One task record; `applications` keeps the order the client sent. */
  datatype Task = Task(id: string, description: string, note: string, applications: seq<string>)

  /** The whole state of the service: identifier to task. */
  type Store = map<string, Task>

  /** The store invariant: every key is the identifier of the task stored under it. */
  predicate WellKeyed(m: Store)
  {
    forall k :: k in m ==> m[k].id == k
  }

  /** The two sample records the process starts with. */
  function Seed(): (m: Store)
    ensures m.Keys == {"1", "2"}
    ensures WellKeyed(m)
  {
    map[
      "1" := Task(
        "1",
        "Сделать финальное задание темы REST API",
        "Если сегодня сделаю, то завтра будет свободный день. Ура!",
        ["VS Code", "Terminal", "git"]),
      "2" := Task(
        "2",
        "Протестировать финальное задание с помощью Postmen",
        "Лучше это делать в процессе разработки, каждый раз, когда запускаешь сервер и проверяешь хендлер",
        ["VS Code", "Terminal", "git", "Postman"])
    ]
  }
}
