/** What a handler writes back: the HTTP status and the JSON `message`/`error` text. */
module Http {

  datatype Response = Response(status: nat, message: string)
}
