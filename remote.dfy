/**
 * The REST calls the components make, seen from the caller: the request that
 * is sent, and an outcome that is either success (with the response's value)
 * or failure (the promise rejects). The outcome is an input of the model.
 */
module Remote {
  import opened TaskStore

  datatype Outcome<+T> = Ok(value: T) | Failed

  /** A request against the task resource `/tarefas`. */
  datatype Request =
    | Put(id: string, body: TaskPatch)   // PUT /tarefas/{id}
    | Post(body: TaskPatch)              // POST /tarefas
    | Delete(id: string)                 // DELETE /tarefas/{id}
}
