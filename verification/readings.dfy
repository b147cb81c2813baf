/**
 The registration code contains two evident slips (a shadowed callback parameter
 in the duplicate classification and a stray comma in the mobile character class).
 Every operation that they touch takes a `Reading`: `AsWritten` follows the code
 literally, `AsIntended` follows what its comments and messages say it should do.
 */
module Readings {

  datatype Reading = AsWritten | AsIntended
}
