/** What the board views ask of the store. The mobile and the desktop views
    of src/components/board/ translate gestures and buttons into these: a
    shift goes to moveColumn, a task move to moveTask. */
module BoardCommands {
  datatype Command =
    | ShiftColumn(fromIndex: int, toIndex: int)
    | MoveTaskCmd(sourceColId: string, destColId: string, sourceIndex: int, destIndex: int)
      /** Opens the delete confirmation for a column; the store is not
          touched until it is confirmed. */
    | RequestDeleteColumn(columnId: string)
}
