/**
 * The GWT editors' state-control service: two slots holding the editor's
 * undo and redo callbacks, set through the API the service exposes to the
 * editor, and `Undo`/`Redo` that call whatever callback the slot holds.
 *
 * A callback is modelled by an abstract command; calling it appends the
 * command to the service's invocation log.
 */
module GwtStateControl {
  import opened Wrappers

  /** An editor-supplied callback, known only by its identity. */
  datatype Command = Command(id: nat)

  class GwtStateControlService {
    var undoCommand: Option<Command>
    var redoCommand: Option<Command>
    /** The commands called through this service, oldest first. */
    var invoked: seq<Command>

    /** A fresh service has both slots empty and has called nothing. */
    constructor ()
      ensures undoCommand == None && redoCommand == None && invoked == []
    {
      undoCommand := None;
      redoCommand := None;
      invoked := [];
    }

    /** Calls the undo command once when one is set, and does nothing otherwise. */
    method Undo()
      modifies this`invoked
      ensures undoCommand.None? ==> invoked == old(invoked)
      ensures undoCommand.Some? ==> invoked == old(invoked) + [undoCommand.value]
    {
      if undoCommand.Some? {
        invoked := invoked + [undoCommand.value];
      }
    }

    /** Calls the redo command once when one is set, and does nothing otherwise. */
    method Redo()
      modifies this`invoked
      ensures redoCommand.None? ==> invoked == old(invoked)
      ensures redoCommand.Some? ==> invoked == old(invoked) + [redoCommand.value]
    {
      if redoCommand.Some? {
        invoked := invoked + [redoCommand.value];
      }
    }

    /** A new API object whose setters write this service's slots. */
    method ExposeApi() returns (api: GwtStateControlApi)
      ensures fresh(api) && api.stateControl == this
    {
      api := new GwtStateControlApi(this);
    }
  }

  /** The object `exposeApi` returns, closing over the service it came from. */
  class GwtStateControlApi {
    const stateControl: GwtStateControlService

    constructor (stateControl: GwtStateControlService)
      ensures this.stateControl == stateControl
    {
      this.stateControl := stateControl;
    }

    /** Overwrites the service's undo slot; the redo slot and the log stay as they are. */
    method SetUndoCommand(undoCommand: Command)
      modifies stateControl`undoCommand
      ensures stateControl.undoCommand == Some(undoCommand)
    {
      stateControl.undoCommand := Some(undoCommand);
    }

    /** Overwrites the service's redo slot; the undo slot and the log stay as they are. */
    method SetRedoCommand(redoCommand: Command)
      modifies stateControl`redoCommand
      ensures stateControl.redoCommand == Some(redoCommand)
    {
      stateControl.redoCommand := Some(redoCommand);
    }
  }

  /**
   * A session on a fresh service: undo and redo before anything is set call
   * nothing; setters reached through two different API objects write the
   * same slots, the later write winning; every undo then calls the last undo
   * command once, and redo calls only the redo command.
   */
  method UndoRedoSession(first: Command, second: Command, redo: Command) returns (log: seq<Command>)
    ensures log == [second, second, redo]
  {
    var service := new GwtStateControlService();
    service.Undo();
    service.Redo();
    var api1 := service.ExposeApi();
    var api2 := service.ExposeApi();
    api1.SetUndoCommand(first);
    api2.SetUndoCommand(second);
    api1.SetRedoCommand(redo);
    service.Undo();
    service.Undo();
    service.Redo();
    log := service.invoked;
  }
}
