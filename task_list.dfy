/**
 * The TaskList component of client/features/tasks/TaskList.tsx as a state
 * machine: the SWR-held task cache, the form state (label and image), and what
 * the component hands to the outside world — the requests it sends and the
 * `revalidate` option of every `mutateTasks` call.
 *
 * Each awaited API call is split into the request the component sends (logged
 * in `requests`) and the server's reply, which the caller supplies as a
 * `Result`; the reply is applied to the cache as it is at the time it arrives.
 */
module TaskListView {
  import opened Wrappers
  import opened TaskUpdaters

  /** A file picked in the file input. */
  datatype File = File(name: string)

  /** The requests the component sends through the API client. */
  datatype Request =
    | Post(taskLabel: string, image: Option<File>)  // POST /tasks
    | Patch(taskId: TaskId, done: bool)              // PATCH /tasks/{id}
    | Delete(taskId: TaskId)                         // DELETE /tasks/{id}

  /** A rejected API call (reported by `catchApiErr`, which the model leaves out). */
  datatype ApiError = ApiError(status: int)

  /** How a submission of the create form ended. */
  datatype CreateOutcome = InvalidLabel | RequestFailed | Added

  /** SWR's `mutate` revalidates unless told otherwise. */
  const DefaultRevalidate: bool := true

  class TaskList {
    /** SWR's `data` for the task list. */
    var tasks: Cache
    /** The `revalidate` option of each `mutateTasks` call, in call order. */
    var revalidations: seq<bool>
    /** The requests sent, in order. */
    var requests: seq<Request>
    /** The `label` state bound to the text input. */
    var labelInput: string
    /** The `image` state bound to the file input. */
    var image: Option<File>

    /**
     * A freshly mounted list. SWR's cache outlives the component, so the list
     * sees whatever is already cached for the request: `None` on first mount.
     * Nothing has been sent yet and the form is empty.
     */
    constructor (cached: Cache)
      ensures tasks == cached && revalidations == [] && requests == []
      ensures labelInput == "" && image == None
    {
      tasks := cached;
      revalidations := [];
      requests := [];
      labelInput := "";
      image := None;
    }

    /** `mutateTasks(updater, { revalidate })`: the cache becomes exactly the updater's result. */
    method MutateTasks(updater: Cache -> Cache, revalidate: bool)
      modifies this
      ensures tasks == updater(old(tasks))
      ensures revalidations == old(revalidations) + [revalidate]
      ensures requests == old(requests) && labelInput == old(labelInput) && image == old(image)
    {
      tasks := updater(tasks);
      revalidations := revalidations + [revalidate];
    }

    /**
     * `createTask` (lines 23-42). An invalid label returns before any request
     * and leaves everything as it was. Otherwise the parsed label is posted; a
     * successful reply is prepended with the default revalidation, a failed one
     * leaves the cache alone; either way the form is then cleared.
     */
    method CreateTask(validate: string -> Option<string>, reply: Result<Task, ApiError>)
      returns (outcome: CreateOutcome)
      modifies this
      ensures validate(old(labelInput)).None? ==>
        && outcome == InvalidLabel
        && tasks == old(tasks) && revalidations == old(revalidations) && requests == old(requests)
        && labelInput == old(labelInput) && image == old(image)
      ensures validate(old(labelInput)).Some? ==>
        && requests == old(requests) + [Post(validate(old(labelInput)).value, old(image))]
        && labelInput == "" && image == None
      ensures validate(old(labelInput)).Some? && reply.Success? ==>
        && outcome == Added
        && tasks == Prepended(old(tasks), reply.value)
        && revalidations == old(revalidations) + [DefaultRevalidate]
      ensures validate(old(labelInput)).Some? && reply.Failure? ==>
        && outcome == RequestFailed
        && tasks == old(tasks) && revalidations == old(revalidations)
    {
      var parsedLabel := validate(labelInput);
      if parsedLabel.None? {
        return InvalidLabel;
      }
      requests := requests + [Post(parsedLabel.value, image)];
      if reply.Success? {
        var created := reply.value;
        MutateTasks(c => Prepended(c, created), DefaultRevalidate);
        outcome := Added;
      } else {
        outcome := RequestFailed;
      }
      labelInput := "";
      image := None;
    }

    /**
     * `toggleDone` (lines 44-50): patch the opposite `done`; a successful reply
     * replaces the task carrying the reply's id, with the default revalidation.
     */
    method ToggleDone(task: Task, reply: Result<Task, ApiError>)
      modifies this
      ensures requests == old(requests) + [Patch(task.id, !task.done)]
      ensures reply.Success? ==>
        tasks == Replaced(old(tasks), reply.value) && revalidations == old(revalidations) + [DefaultRevalidate]
      ensures reply.Failure? ==> tasks == old(tasks) && revalidations == old(revalidations)
      ensures labelInput == old(labelInput) && image == old(image)
    {
      requests := requests + [Patch(task.id, !task.done)];
      if reply.Success? {
        var updated := reply.value;
        MutateTasks(c => Replaced(c, updated), DefaultRevalidate);
      }
    }

    /**
     * `deleteTask` (lines 52-58): delete by the task's id; a successful reply
     * filters out the reply's id, with the default revalidation.
     */
    method DeleteTask(task: Task, reply: Result<Task, ApiError>)
      modifies this
      ensures requests == old(requests) + [Delete(task.id)]
      ensures reply.Success? ==>
        tasks == Removed(old(tasks), reply.value.id) && revalidations == old(revalidations) + [DefaultRevalidate]
      ensures reply.Failure? ==> tasks == old(tasks) && revalidations == old(revalidations)
      ensures labelInput == old(labelInput) && image == old(image)
    {
      requests := requests + [Delete(task.id)];
      if reply.Success? {
        var deleted := reply.value;
        MutateTasks(c => Removed(c, deleted.id), DefaultRevalidate);
      }
    }

    /**
     * The push-message effect (lines 60-84): no message does nothing; each of
     * the three tags merges with revalidation switched off and sends nothing.
     */
    method OnMessage(lastMsg: Option<TaskEvent>)
      modifies this
      ensures lastMsg.None? ==> tasks == old(tasks) && revalidations == old(revalidations)
      ensures lastMsg.Some? ==>
        tasks == Merged(old(tasks), lastMsg.value) && revalidations == old(revalidations) + [false]
      ensures requests == old(requests) && labelInput == old(labelInput) && image == old(image)
    {
      if lastMsg.None? {
        return;
      }
      match lastMsg.value
      case TaskCreated(task) =>
        MutateTasks(c => MergedCreated(c, task), false);
      case TaskUpdated(task) =>
        MutateTasks(c => Replaced(c, task), false);
      case TaskDeleted(id) =>
        MutateTasks(c => Removed(c, id), false);
    }
  }
}
