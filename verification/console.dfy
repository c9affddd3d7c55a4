/** What a console command hands back: its exit code, its table rows, and the message it prints instead of or beside them. */
module Console {
  const SUCCESS: int := 0
  const FAILURE: int := 1

  datatype Notice = Quiet | Info(text: string) | Warn(text: string) | ErrorMessage(text: string)

  datatype Report<R> = Report(code: int, rows: seq<R>, notice: Notice)
}
