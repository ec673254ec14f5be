/** The server's configuration constants (http_file_server.py, lines 11-20). */
module Config {

  /** Bytes asked of one `sock.recv()`. */
  const RECV_LENGTH: nat := 0x8_0000
  /** Bytes per chunk of a response (1 MB). */
  const CHUNK_SIZE: nat := 0x10_0000
  /** Largest declared Content-Length accepted for a POST (64 MB). */
  const MAX_UPLOAD_SIZE: nat := 0x400_0000
  /** Largest uploaded file (32 MB). */
  const MAX_FILE_SIZE: nat := 0x200_0000

  /** The status codes the server sends. */
  datatype Status = Continue100 | Ok200 | Partial206 | NotFound404 | TooLarge413
  {
    function Code(): nat
    {
      match this
      case Continue100 => 100
      case Ok200 => 200
      case Partial206 => 206
      case NotFound404 => 404
      case TooLarge413 => 413
    }

    /** The status line, `HEAD_100` ... `HEAD_413`, terminated by a bare newline. */
    function Line(): string
    {
      match this
      case Continue100 => "HTTP/1.1 100 Continue\n"
      case Ok200 => "HTTP/1.1 200 OK\n"
      case Partial206 => "HTTP/1.1 206 Partial Content\n"
      case NotFound404 => "HTTP/1.1 404 Not Found\n"
      case TooLarge413 => "HTTP/1.1 413 Payload Too Large\n"
    }
  }
}
