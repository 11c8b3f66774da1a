/** The context menu both editors attach to their text area. */
module Menu {
  /** The two menu commands, each of which runs the file dialog and then a write or a load. */
  datatype MenuItem = SaveAs | OpenFile
}
