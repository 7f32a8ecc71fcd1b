/** The responses the handlers send, and their status codes. */
module Http {
  import opened Listing

  datatype Response =
    | Listed(items: seq<Item>)      // res.json(items)
    | Text(body: string)            // res.type('text/plain').send(body)
    | Done                          // res.json({ ok: true })
    | BadRequest(error: string)     // res.status(400).json({ error: e.message })

  function Status(r: Response): int {
    if r.BadRequest? then 400 else 200
  }
}
